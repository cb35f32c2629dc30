# A verified model of docket

docket is an event library in C (`devent`, with its containers in `dlib`), a DNS codec (`dns`) and a SOCKS5 client and
server built on them (`docks`). This project models the code that carries state across calls and proves what it keeps.
Code that changes things in place is modelled in place: linked nodes, chunks of 4096 bytes, the shared pool, arrays that
are shifted, context fields and callbacks. Each such method is proved against a specification function, and lemmas say
what the specification means. `dafny verify dfyconfig.toml` checks everything.

- `LinkedList`, `Chunks`, `Buffer`: the list, the chunk pool and the byte queue on top of them. A queue of chunks is the
  byte sequence it holds, whatever the chunk boundaries.
- `BufferSpace`: all buffers of a process and their one pool. Its invariant holds after every run of the operations:
  footprints are disjoint, every live chunk is in exactly one list, and what a buffer was given is what was taken from it
  followed by what it holds.
- `Event`, `Relay`: the flush loop and the two-way relay with its drain-then-close callbacks, for every answer of the
  sockets and every interleaving.
- `Registry`: the descriptor table and the loops that run callbacks over it. Memory is a map from addresses to events, so
  that a use after free would be a failed proof.
- `SparseArray`, `ArrayMap`, `HashMap`: the sorted array as a finite map, the search over repeated hashes, and the
  relocation of a growing hash table.
- `DnsNames`, `DnsExact`, `DnsMessage`, `DnsRoundTrip`, `DnsResponse`: names with pointers against section 4.1.4 of RFC
  1035, exactly when their text is right, the three message functions, the round trip from query to parsed answer, and
  responses in general. The names that the message functions handle are C strings, as in the source.
- `Socks`, `SocksClient`, `SocksServer`, `Handshake`: the frames of RFC 1928 and RFC 1929, the two callback machines, and
  the two of them joined by FIFO channels.

Where the code falls short of what it is for, the model keeps the code, and lemmas give the exact condition and inputs
that fail:

- A send that takes part of the head chunk drops the rest of it: the stream is unbroken exactly when every send took the
  whole chunk (`Buffer.DocketBuffer.Send`).
- The target of a compression pointer is computed correctly exactly if it is below 256 (`DnsNames.TargetExact`; a packet
  that is misread is in `DnsNames.FarPointerMisread`). Where all targets are, the decoded text is that of the name that
  RFC 1035 denotes exactly if no pointer to a root stands behind a label and no label holds a zero byte
  (`DnsExact.RfcExactly`, `DnsNames.RootPointerMisread`, `DnsExact.ZeroLabelMisread`), and the labels can be read back
  from the text exactly if, besides, none holds a dot (`DnsExact.LabelsExactly`, `DnsExact.DotLabelAmbiguous`).
- A label length from 128 to 191 is a negative signed character: the decoder goes backwards. It goes on for ever exactly
  if it makes as many jumps, pointers and such lengths, as the packet has bytes (`DnsNames.EndsExactly`, with a packet
  for either kind in `DnsNames.SelfPointerNeverEnds` and `DnsNames.BackwardLengthNeverEnds`).
- The answer tables of the parser are sized by the answer count with its bytes swapped, which is enough exactly if the
  low byte is at least the high one (`DnsMessage.TableFits`, `DnsMessage.TableTooSmall`).
- What the parser collects as aliases are the names in the data of the records that are neither addresses nor aliases
  (`DnsResponse.RecordsGive`).
- After the hash table doubles, a node is in the bucket a lookup goes to exactly if its hash has the bit of the new
  capacity, or has neither that nor the old bit and was in the right bucket before (`HashMap.FoundAfterDoubling`,
  `HashMap.LostKey`).
- A server that waits for the rest of a request keeps what has arrived exactly if the address is not a domain, or none of
  it has arrived (`SocksServer.WaitingKeeps`, `SocksServer.LengthLost`).
- A request is taken from the in-buffer without what follows it exactly if the address is not a domain, or nothing
  follows (`SocksServer.WantedTakes`, `SocksServer.FollowingLost`).
- A user name, password or host whose length byte is not negative is sent whole exactly if it has at most 127 bytes
  (`Socks.SentWhole`).
- The server's answer to a login does not decide whether it reads a request: connecting starts exactly when the remote
  host can be reached, whatever the answer was (`SocksServer.LoginThenRequest`, `SocksServer.RefusedGoesOn`). That a
  refused peer does not get through is kept by the docks client (`Handshake.Session.RequestOnlyIfAdmitted`).
- Freeing an event keeps the registry sound exactly unless the event is registered under a descriptor that is not
  positive (`Registry.Docket.Free`, `Registry.Docket.FreedButRegistered`).

## Model

| member | source | states |
|---|---|---|
| `LinkedList.CLinkedList.Add` | dlib/c_linked_list.c:60-79 | append: the values grow by one at the end, one fresh node, the chain stays acyclic with exactly `len` nodes and ends in `footer` |
| `LinkedList.CLinkedList.GetHeader` | dlib/c_linked_list.c:81-90 | the first value, nothing for an empty list |
| `LinkedList.CLinkedList.GetFooter` | dlib/c_linked_list.c:92-100 | the last value, nothing for an empty list |
| `LinkedList.CLinkedList.RemoveHeader` | dlib/c_linked_list.c:102-126 | drop first: returns the first value and keeps the other nodes in order |
| `LinkedList.CLinkedList.RemoveFooter` | dlib/c_linked_list.c:128-161 | drop last, found by walking to the node before it |
| `LinkedList.CLinkedList.Remove` | dlib/c_linked_list.c:163-193 | deletes exactly the given node wherever it is, and changes nothing if it is not in the list |
| `LinkedList.CLinkedList.Clear` | dlib/c_linked_list.c:195-202 | ends, with no node left |
| `LinkedList.CLinkedList.Iterate` | dlib/c_linked_list.c:204-223 | following the iterator visits exactly the values, in order |
| `LinkedList.CLinkedList.Merge` | dlib/c_linked_list.c:225-245 | concatenate-and-empty for lists that share no node; a list merged with itself ends empty; a missing list is -1 and no change |
| `LinkedList.CLinkedList.ResetWithNoFree` | dlib/c_linked_list.c:247-253 | forgets all nodes |
| `LinkedList.CLinkedList.Move` | dlib/c_linked_list.c:255-266 | a new list takes the whole chain over |
| `Chunks.FlattenAppend` | devent/buffer.c:141-144 | splicing two chunk lists concatenates the bytes they stand for |
| `Chunks.PeekChunks` | devent/buffer.c:180-209 | the peek loop over the iterator yields the prefix of the concatenated chunks |
| `Chunks.BufferPool.Get` | devent/buffer.c:55-66 | hands out the oldest idle chunk, or a new one only when there is none; it is empty and no longer the pool's |
| `Chunks.BufferPool.Release` | devent/buffer.c:68-77 | keeps the chunk as the last to be reused, or frees it when the pool holds more than 1024 |
| `Chunks.HandedOutAccounted` | devent/buffer.c:55-66 | taking a chunk from the pool keeps every live chunk in exactly one place |
| `Chunks.TakenBackAccounted` | devent/buffer.c:68-77 | so does giving one back, also when it is freed |
| `Buffer.DocketBuffer.Write` | devent/buffer.c:107-147 | appends exactly the data, however many chunks it takes; queued chunks are non-empty and within 4096 bytes, `length` is their total |
| `Buffer.DocketBuffer.Read` | devent/buffer.c:149-178 | takes the longest available prefix up to `n` across chunks; -1 only for `n` of 0; used-up chunks go to the pool |
| `Buffer.DocketBuffer.ReadFull` | devent/buffer.c:219-228 | all `n` bytes, or -1 and nothing changes |
| `Buffer.DocketBuffer.Peek` | devent/buffer.c:230-236 | the prefix a following read would take; nothing changes |
| `Buffer.DocketBuffer.PeekFull` | devent/buffer.c:238-247 | the same for exactly `n` bytes, or -1 |
| `Buffer.DocketBuffer.Send` | devent/buffer.c:249-286 | an error changes nothing; otherwise the head chunk is gone, and wire followed by queue is the old queue if and only if the whole chunk was taken |
| `Buffer.DocketBuffer.MoveTo` | devent/buffer.c:288-303 | all chunks of one buffer go behind the other's without copying; moving a buffer to itself is the identity |
| `Buffer.DocketBuffer.Free` | devent/buffer.c:95-105 | its chunks become idle, and none is lost even before the pool exists |
| `BufferSpace.Space.constructor` | devent/buffer.c:53 | with no buffer and no pool list yet, the invariant of all runs holds |
| `BufferSpace.Space.New` | devent/buffer.c:79-89 | a new empty buffer, apart from all others |
| `BufferSpace.Space.Write` | devent/buffer.c:107-147 | of all buffers only this one changes, its history grows by the data, and every chunk stays in exactly one list |
| `BufferSpace.Space.Read` | devent/buffer.c:211-217 | bytes taken so far followed by bytes queued stay what was put in; recycling the chunks changes no other buffer |
| `BufferSpace.Space.ReadFull` | devent/buffer.c:219-228 | the same with the all-or-nothing result |
| `BufferSpace.Space.Peek` | devent/buffer.c:230-236 | shows a prefix and changes no buffer |
| `BufferSpace.Space.ReadInTwo` | devent/buffer.c:149-209 | chunk boundaries are invisible: peeking `n + m`, and reading `n` then `m`, give the same bytes and the same remainder |
| `BufferSpace.Space.Send` | devent/buffer.c:249-286 | only this buffer changes, by its head chunk |
| `BufferSpace.Space.MoveTo` | devent/buffer.c:288-303 | the moved bytes leave one history and enter the other; aliasing is the identity; no third buffer changes |
| `BufferSpace.Space.Free` | devent/buffer.c:95-105 | the buffer is gone, the others and the conservation of chunks are untouched |
| `BufferSpace.ConservedUpdate` | devent/buffer.c:55-77 | a buffer's exchange with the pool keeps every live chunk in exactly one of all lists |
| `BufferSpace.ConservedMove` | devent/buffer.c:288-303 | so does a move between two buffers |
| `BufferSpace.ConservedFree` | devent/buffer.c:95-100 | and freeing one |
| `BufferSpace.Space.Undisturbed` | devent/buffer.c:55-77 | an operation confined to one buffer and the pool leaves every other buffer as it was |
| `Event.DocketEvent.SendOnce` | devent/write.c:22-46 | for every answer of the kernel, which bytes go out, what stays queued, when writing is switched off and when the event fails; EAGAIN changes nothing |
| `Event.DocketEvent.Flush` | devent/write.c:15-51 | for every list of answers: it ends with an empty queue after answers that all took something, or with writing off because the last answer was that the socket would block or none is left, or failed because the last one was a failure; sent bytes followed by the rest are the old queue if no send was short; answers with room for whole chunks lose nothing; enough answers that take something empty the queue; entered with writing off it only switches it on |
| `Event.StreamedMore` | devent/write.c:22-46 | rounds of the loop compose to one unbroken stream |
| `Relay.Pair.constructor` | docks/docks_connect.c:44-56 | the switch to relaying with bytes that may be waiting already |
| `Relay.Pair.Forward` | docks/transfer.c:75-89 | all that was received goes to the peer and is flushed with writing forced on, after which the flag is put back; a failed send ends the peer and with it this side |
| `Relay.Pair.Disconnect` | docks/transfer.c:34-73 | the side that ends is freed; the peer is freed with it only if it has nothing left, or else stays, cut loose |
| `Relay.Pair.FreeDrained` | docks/transfer.c:9-27 | a draining side is freed only with an empty out-buffer |
| `Relay.Pair.Finally` | docks/transfer.c:29-55 | a draining side that ends itself is freed and its peer left alone |
| `Relay.Pair.WriteData` | devent/write.c:15-51 | what a flush makes of both sides, for each of its endings; a draining side that is empty is gone |
| `Relay.Pair.OnEventWrite` | devent/write.c:53-79 | a write event: the side has sent all or its socket would block, or it is gone, by a failed send or because it was draining and is empty |
| `Relay.Pair.ReadLoop` | devent/read.c:44-79 | every byte the socket gives is received in order and given to the peer at once, until the socket blocks or ends, or the peer fails and takes the side with it |
| `Relay.Pair.AfterReading` | devent/read.c:81-96 | flush after data or when the socket would block; at the end of a stream the last bytes are forwarded before the event closes |
| `Relay.Pair.EndOfStream` | devent/read.c:88-96 | the side ends for its end of the stream with all that it received relayed, or with its peer when the last bytes could not be sent; never for a send error of its own |
| `Relay.Pair.OnEventRead` | devent/read.c:20-97 | a read event takes all the data there is, unless the side is freed on the way; it stops only where the socket blocks, ends or has nothing left; a relaying side keeps none of what it received, the peer has sent it or its socket would block, and an end of the stream ends the side |
| `Relay.Pair.Conservation` | docks/transfer.c:75-89 | delivered, then the peer's out-buffer, then the source's in-buffer, are what was received, if and only if no send was short |
| `Relay.Pair.DrainBeforeClose` | docks/transfer.c:9-27 | a side freed because its peer had ended has sent all that was relayed to it, if and only if no send was short |
| `Relay.Pair.Run` | devent/read.c:20-97 | the two stream equations after every run, with any order of read and write events on the two sockets and any answers, and each step of the run is a read or a write event as stated; also for a side that is still draining, and for one drained after its peer's send error |
| `SparseArray.AsMapInsert` | dlib/c_sparse_array.c:111-137 | inserting at the insertion point keeps keys strictly ascending and adds one binding |
| `SparseArray.AsMapDrop` | dlib/c_sparse_array.c:156-169 | closing a gap removes exactly the keys in it |
| `SparseArray.AsMapUpTo` | dlib/c_sparse_array.c:181-199 | the leading nodes are exactly the bindings up to the bound |
| `SparseArray.CSparseArray.Resize` | dlib/c_sparse_array.c:59-80 | growth by half ends with enough room and keeps the content |
| `SparseArray.CSparseArray.FindIndex` | dlib/c_sparse_array.c:82-109 | the key's position, or the complement of the one place where it can be inserted |
| `SparseArray.CSparseArray.Put` | dlib/c_sparse_array.c:111-137 | binds the key, returns the old binding, touches no other key |
| `SparseArray.CSparseArray.Get` | dlib/c_sparse_array.c:139-147 | agrees with the finite map on every key |
| `SparseArray.CSparseArray.Remove` | dlib/c_sparse_array.c:156-169 | unbinds the key, returns its binding, touches no other key |
| `SparseArray.CSparseArray.RemoveLast` | dlib/c_sparse_array.c:171-179 | unbinds the largest key |
| `SparseArray.CSparseArray.RemoveBeforeKey` | dlib/c_sparse_array.c:181-199 | removes exactly the keys up to the bound, smallest first, and counts them |
| `ArrayMap.AscendingInsert` | dlib/c_array_map.c:126-153 | the places where inserting a hash keeps the order, exactly |
| `ArrayMap.CArrayMap.SearchRun` | dlib/c_array_map.c:90-111 | searches the whole run of equal hashes around a hit |
| `ArrayMap.CArrayMap.KeyIndex` | dlib/c_array_map.c:78-124 | finds a key if and only if it is present under its hash; otherwise the complement is a place that keeps the order |
| `HashMap.Relocate` | dlib/c_hash_map.c:102-121 | the node ends its new chain, and no node is in two places |
| `HashMap.MoveChain` | dlib/c_hash_map.c:139-158 | every node of a chain moves once, to the bucket its hash bit selects |
| `HashMap.NewIndexCongruent` | dlib/c_hash_map.c:144-149 | the new bucket exists and still agrees with the hash modulo 8 |
| `HashMap.CHashMap.Relocation` | dlib/c_hash_map.c:133-163 | the new table has the same nodes in disjoint acyclic chains, each where its hash bit puts it |
| `HashMap.CHashMap.Resize` | dlib/c_hash_map.c:123-163 | any sequence of resizes keeps the set of nodes; doubling happens exactly from a load of three quarters on; for every node of the new table, exactly when a lookup goes to its bucket |
| `HashMap.FoundAfterDoubling` | dlib/c_hash_map.c:149 | for a node of any bucket, exactly when a lookup goes to its new one: lost with the old bit and without the new one, found again with the new one |
| `HashMap.FoundAfterResize` | dlib/c_hash_map.c:138-159 | the same for every node of a table at once |
| `HashMap.LostKey` | dlib/c_hash.c:12-27 | the key `ca`, whose node stays in bucket 5 of 16 while a lookup goes to 13 |
| `HashMap.SignedHash` | dlib/c_hash.c:12-27 | the hash of a single character of 128 or more, which is negative |
| `Registry.Docket.Add` | devent/docket.c:101-104 | registers the event under its descriptor, whatever that is, in place of any other |
| `Registry.Docket.Find` | devent/docket.c:121-125 | what is found is live and has that descriptor |
| `Registry.Docket.Free` | devent/event.c:172-212 | unregisters and frees; the registry holds only live events afterwards if and only if the descriptor was positive or the event not registered |
| `Registry.Docket.FreedButRegistered` | devent/event.c:183-191 | an event under descriptor 0 stays registered when it is freed |
| `Registry.Docket.Callback` | devent/read.c:69-71 | any run of API calls, also freeing or replacing the event under its descriptor, keeps the registry sound |
| `Registry.Docket.Close` | devent/utils.c:78-92 | only live events are used around the callback; nothing stays registered under the descriptor, and without a callback exactly the event is gone |
| `Registry.Docket.WriteData` | devent/write.c:15-51 | the flush uses only live events, and none after it was closed; it closes the event if the first answer that stops it is an end, and else changes its write flag only, before the write callback |
| `Registry.Docket.OnEventWrite` | devent/write.c:53-79 | the same for a write event, and nothing but the flag without queued bytes |
| `Registry.Docket.OnEventRead` | devent/read.c:20-97 | the loop uses only what it has looked up again; it ends the event only for an end of the stream, after which the descriptor is free, and exactly then as long as no callback runs |
| `DnsNames.TargetExact` | dns/c_dns.c:100 | the target the code computes is that of RFC 1035 section 4.1.4 if and only if it is below 256 |
| `DnsNames.EndsExactly` | dns/c_dns.c:84-135 | the decoder never ends if and only if it makes as many jumps, through pointers or negative label lengths, as the packet has bytes; a name that can be read at all can be read with that many |
| `DnsNames.SelfPointerNeverEnds` | dns/c_dns.c:92-119 | a packet of 14 bytes with a pointer on which it never ends |
| `DnsNames.BackwardLengthNeverEnds` | dns/c_dns.c:120-134 | a packet of 90 bytes without a pointer on which it never ends |
| `DnsNames.BackwardLengthText` | dns/c_dns.c:120-134 | a packet of 67 bytes with such a length, the text that comes out, and its size of -61 |
| `DnsNames.GetName` | dns/c_dns.c:78-138 | terminates on every name that stays inside the packet and whose jumps, in any direction, come to an end; size, text and reported offset are those of the specification functions |
| `DnsNames.DecodeIsSpelled` | dns/c_dns.c:78-138 | what comes out for every name whose pointers lead strictly backwards and below 256, roots behind labels included |
| `DnsNames.RootPointerMisread` | dns/c_dns.c:110-118 | a packet on which the name `a` comes out as `a.(null)` |
| `DnsNames.DecodeIsText` | dns/c_dns.c:78-138 | names without pointers to roots come out as the C strings of their labels, whatever the target's length |
| `DnsExact.RfcExactly` | dns/c_dns.c:78-138 | for pointers strictly backwards and below 256 the text is that of the name RFC 1035 denotes, with the size in place, if and only if no pointer to a root stands behind a label and no label holds a zero byte |
| `DnsExact.LabelsExactly` | dns/c_dns.c:78-138 | for these names the labels can be read back from the text, if and only if, besides, no label holds a dot |
| `DnsExact.DecodeIsRfc` | dns/c_dns.c:78-138 | so names without pointers to roots and without zero bytes come out as RFC 1035 denotes them |
| `DnsExact.ZeroLabelMisread` | dns/c_dns.c:121-131 | a packet without a pointer whose name comes out as another one |
| `DnsExact.DotLabelAmbiguous` | dns/c_dns.c:121-131 | a packet whose name has the text of another one |
| `DnsNames.ResolveSameName` | dns/c_dns.c:82-109 | decoding again at the reported offset gives the same name, and that place is no pointer |
| `DnsNames.NameAgrees` | dns/c_dns.c:78-138 | what follows a section does not change the names in it |
| `DnsNames.FarPointerMisread` | dns/c_dns.c:100 | a packet with a pointer to 256 for which the code returns no name |
| `DnsNames.DomainToDnsNameFormat` | dns/c_dns.c:57-76 | each label behind its length, then a zero |
| `DnsNames.SplitBack` | dns/c_dns.c:57-76 | joining the labels of a dotted name gives it back; its wire form is one byte longer |
| `DnsNames.EncodeDecode` | dns/c_dns.c:57-138 | name round trip: encoded anywhere in a packet, a name with labels of 1 to 63 bytes decodes to itself and takes its length plus 2 |
| `DnsMessage.Pack` | dns/c_dns.c:168-195 | one question byte by byte as RFC 1035 sections 4.1.1 and 4.1.2 have it, with the id and the type asked for, or -1 for a short buffer; nothing behind it changes |
| `DnsMessage.WantedIs` | dns/c_dns.c:288-289 | which four bytes of type and class make a question wanted, a record an address and a record an alias |
| `DnsMessage.ScanQuestions` | dns/c_dns.c:353-392 | keeps exactly the IN-class A and AAAA questions in order and sizes the answers |
| `DnsMessage.GenInetResponse` | dns/c_dns.c:327-450 | up to the end of the questions every byte is the query's, the id included, except for the response flag and the answer count; behind them one record for each kept question; every error gives nothing |
| `DnsMessage.AnswerLayout` | dns/c_dns.c:403-443 | an answer record byte by byte as RFC 1035 section 4.1.3 has it: a pointer to the name, type A, class IN, no lifetime, length and address |
| `DnsMessage.ParseA` | dns/c_dns.c:218-317 | skips the questions and collects the first name, aliases and addresses; all error returns |
| `DnsMessage.TableFits` | dns/c_dns.c:258-259 | when the tables have room for every record, exactly |
| `DnsMessage.TableTooSmall` | dns/c_dns.c:258-259 | a header with 256 answers, for which there is room for one |
| `DnsResponse.RecordsGive` | dns/c_dns.c:265-313 | for any well-formed run of records, with names compressed or not, exactly the addresses of the address records in order, the names in the data of those that are neither addresses nor aliases, and the first owner |
| `DnsResponse.ResponseGives` | dns/c_dns.c:218-317 | so for every well-formed response of any server, if the tables have room |
| `DnsRoundTrip.AnswerIs` | dns/c_dns.c:401-444 | an answer record, read back, has its question's name and its address |
| `DnsRoundTrip.RecordsAre` | dns/c_dns.c:265-313 | the parser collects the answers' addresses in order |
| `DnsRoundTrip.RoundTrip` | dns/c_dns.c:218-450 | for every good query, parsing the response gives exactly the callbacks' addresses in order and the first name |
| `DnsRoundTrip.AddressesAre` | dns/c_dns.c:419-442 | there are addresses if and only if the callbacks know every name, and each is what the callback for its question's type gives for its name |
| `DnsRoundTrip.RoundTripOfAddresses` | dns/c_dns.c:218-450 | with uncompressed names and address questions only, as many addresses as questions and the first question's name, with nothing else assumed |
| `DnsRoundTrip.PackedIsGood` | dns/c_dns.c:168-195 | what is packed for a well-formed name is a good query for that name |
| `DnsRoundTrip.FirstAnswer` | dns/c_dns.c:218-476 | response, parser and first address in a row: the IPv4 address of the first wanted question's name, or the first four bytes of its IPv6 address, if and only if the callbacks know every name |
| `DnsRoundTrip.Lookup` | dns/c_dns_test.c:105-128 | pack, respond, parse and take the first address: it is the callback's address for the name, for every name, port and buffer |
| `Wire.ShortBack` | dlib/clib.c:347-364 | writing and reading a 16-bit integer are inverse to each other |
| `Wire.CStrIs` | docks/auth.c:36-49 | a copied C string is the longest prefix without a zero byte |
| `Socks.ReplyRoundTrip` | docks/docks_connect.c:58-100 | a granted reply parses to its bound address and port and leaves what follows (RFC 1928 section 6) |
| `Socks.ReplyPrefixUndecided` | docks/docks_connect.c:317-434 | no proper prefix of a granted reply decides anything |
| `Socks.VerdictStable` | docks/docks_connect.c:317-434 | later bytes do not change a verdict |
| `Socks.VerdictIs` | docks/docks_connect.c:317-434 | a reply is taken for granted if and only if it begins with the frame of some address and port, and refused if and only if it has three bytes and no such frame can come of it |
| `Socks.GrantedIs` | docks/docks_connect.c:317-434 | the bytes that a granted verdict uses are the frame of its address and port |
| `Socks.UndecidedGoesOn` | docks/docks_connect.c:317-434 | an undecided beginning, of three bytes or more or of the bytes 5, 0, 0, is the beginning of some granted reply |
| `Socks.Layout` | docks/method.c:117-139 | the frames of the client byte by byte (RFC 1928 sections 3 and 4, RFC 1929 section 2) |
| `Socks.ReplyLayout` | docks/docks_connect.c:58-100 | the reply byte by byte (RFC 1928 section 6) |
| `Socks.StoredWhole` | docks/docks_connect.c:398 | a host is kept as it came, if and only if it is no name with a zero byte |
| `Socks.SentWhole` | docks/method.c:101-106 | of the strings whose length byte is not negative, exactly those of up to 127 bytes are sent whole; of the others a prefix goes out |
| `SocksClient.Client.WriteMethods` | docks/method.c:117-139 | offers no authentication, and user and password if a user is configured (RFC 1928 section 3) |
| `SocksClient.Client.OnNegotiation` | docks/method.c:81-115 | what is sent next for every answer, with the bytes it consumes |
| `SocksClient.Client.OnUP` | docks/auth.c:73-97 | the request is sent exactly on version 1 and status 0 |
| `SocksClient.Client.SendRemoteAddress` | docks/docks_connect.c:436-453 | the request frame of RFC 1928 section 4 for the host by name |
| `SocksClient.Client.OnServerConnect` | docks/docks_connect.c:411-434 | the chained callbacks reach the state of a parser given all bytes at once; `on_server_connect` was called if and only if the reply begins with a granted frame, and a header other than 5, 0, 0 frees the event |
| `SocksClient.Client.OnBindHost` | docks/docks_connect.c:341-407 | the same from the address on |
| `SocksClient.Client.OnBindPort` | docks/docks_connect.c:317-339 | the same from the port on; `on_server_connect` runs once |
| `SocksClient.Client.DeliverAll` | docks/docks_connect.c:317-434 | however the reply is cut into segments, the client agrees with the parser of the whole reply, and with what the reply says as bytes |
| `SocksClient.SegmentationIndependence` | docks/docks_connect.c:317-434 | two deliveries of the same bytes end with the same verdict, address, port and leftover bytes; `on_server_connect` ran at most once, and exactly for a granted reply |
| `SocksServer.Server.Negotiate` | docks/negotication.c:9-23 | the loop picks user and password if and only if users exist and it is offered |
| `SocksServer.Server.OnMethodsInner` | docks/method.c:13-53 | waits for the whole offer, answers with the choice, and closes when there is none |
| `SocksServer.Server.OnMethods` | docks/method.c:55-77 | the whole of the method selection for every input, also when the offer is cut |
| `SocksServer.Server.OnAuth` | docks/auth.c:11-69 | for every input: consumes exactly one frame of RFC 1929 section 2 and answers 0 if and only if the pair is held; an input that ends behind the user name is answered and not consumed |
| `SocksServer.Server.OnConnect` | docks/docks_connect.c:275-314 | for every input: waits, closes, or goes on to the address with the header kept |
| `SocksServer.Server.OnReadAddress` | docks/docks_connect.c:139-273 | host, port and consumed bytes for each address type, all waits and errors, and when connecting starts |
| `SocksServer.WholeRequest` | docks/docks_connect.c:139-314 | a request for an IPv4, IPv6 or domain address leaves that address, a name up to its first zero byte, and that port at the server, and behind an IPv4 or IPv6 address everything that follows |
| `SocksServer.RequestGives` | docks/docks_connect.c:139-237 | the wire form of an address and a port is read back, whatever follows |
| `SocksServer.WantedIs` | docks/docks_connect.c:139-237 | what stands behind the header is taken for a request if and only if it begins with the wire form of an address and a port, which are the ones that come out |
| `SocksServer.Server.SendReply` | docks/docks_connect.c:58-100 | fills the reply in place and sends exactly the frame of RFC 1928 section 6 |
| `SocksServer.WaitingKeeps` | docks/docks_connect.c:206-225 | waiting loses no byte, if and only if no part of a domain has arrived |
| `SocksServer.WantedTakes` | docks/docks_connect.c:206-237 | nothing but the request is taken, if and only if the address is not a domain or nothing follows |
| `SocksServer.FollowingLost` | docks/docks_connect.c:206-237 | a domain request and the byte behind it, taken together |
| `SocksServer.LengthLost` | docks/docks_connect.c:206-225 | a request whose first byte arrives alone: the rest is not recognised as one |
| `SocksServer.LoginThenRequest` | docks/auth.c:55-68 | the answer to a login says whether the pair is held; connecting starts either way |
| `SocksServer.RefusedGoesOn` | docks/auth.c:55-68 | a server with one user, an empty pair, and a request that is gone on with |
| `SocksServer.RequestRoundTrip` | docks/docks_connect.c:206-237 | the client's request gives the server the client's host and port |
| `SocksServer.CredentialsRoundTrip` | docks/auth.c:31-51 | the client's frame gives the server the client's user and password |
| `SocksServer.CredentialsAre` | docks/auth.c:31-51 | credentials are complete if and only if a frame of RFC 1929 stands at the front, and are its strings up to their zero bytes |
| `Handshake.Session.ToServer` | docks/method.c:55-77 | a frame delivered to the server keeps the state of the handshake and moves it on |
| `Handshake.Session.ToClient` | docks/docks_connect.c:317-434 | any part of what the server has written, delivered to the client, keeps it and makes progress |
| `Handshake.Session.RemoteAnswers` | docks/docks_connect.c:122-137 | the end of connecting, with or without success, keeps it |
| `Handshake.Session.OneChannelAtATime` | docks/method.c:13-139 | at most one of the two channels holds bytes |
| `Handshake.Session.RequestOnlyIfAdmitted` | docks/auth.c:11-97 | in every state, a client that has sent its request was admitted: the server has no users or holds exactly its pair; one that is turned away was not |
| `Handshake.Session.Agreement` | docks/docks_connect.c:317-453 | when the client is through, host and port at the server are the client's request, the client's bound address and port are the server's reply, and no byte is left; it is through exactly when the whole reply has arrived |
| `Handshake.Session.Run` | docks/docks_connect.c:317-453 | every run of the two machines ends; the client gets through if and only if it is admitted and the server reaches the remote host |

## Left out

- Sockets, epoll and kqueue, TLS, listeners, timers, configuration, logging, hex dumps and the JNI stub: what a read or a
  send answers is arbitrary, and connecting either starts or not.
- `inet_ntoa`, `inet_ntop` and `inet_pton`: addresses are kept as raw bytes, and the conversions do not fail.
- Failure of `malloc`, integer widths of lengths and counters other than those on the wire, and the mutex variant, which
  is commented out. NULL arguments of the buffer functions; NULL lists are modelled in `Merge` only.
- Memory that is not freed, such as the node when the last element is taken from a list.
- Event.DocketEvent.Flush: a send of 0 bytes is answered by looking at an old `errno` in the source; the model lets it be
  either of the two cases.
- Relay.Pair.Conservation: the in-order claim is for runs in which no send was short; for the others it says only that
  bytes are missing.
- Relay.Pair.Forward: the flag word that is written back after the flush (devent/event.c:126-127) when the flush has
  closed the event; there the model does nothing.
- Relay.Pair.Disconnect: the model marks the peer as draining also where it is freed in the same call; the final
  callbacks free a context taken for one of the other type, and contexts are not freed in the model.
- Registry.Docket.OnEventRead: after a callback, which may change anything, it is stated only that the registry is sound,
  and what holds when the event ends.
- Registry.Docket.Callback: callbacks are arbitrary runs of API calls on live events; the modules on relay and handshake
  have the real ones.
- Read and write timeouts and the datagram branch of the read loop, which are not finished in the source.
- HashMap.CHashMap.Resize: put, get, replacing and removing, and the count they keep, are not modelled; the server's
  table of users is a map.
- ArrayMap.CArrayMap.KeyIndex: the mutators of that map, of the number set and of the hash set, and the growth of the
  plain array, are not modelled: they do not do what their names say. The array list and trim helpers would only add easy
  members.
- DnsNames.GetName: a name that leaves the packet, by a label, by a jump, or by a negative length with no zero byte
  behind it, is outside `Readable`, since the source then reads memory that is not the packet's; so is a name that never
  ends.
- DnsMessage.ScanQuestions: questions that are cut off by the end of the packet, or lie before its beginning, for the same
  reason.
- DnsMessage.GenInetResponse: reads the same questions; answers to AAAA questions carry type A and 16 bytes, as in the
  source.
- DnsMessage.ParseA: what the source does when the tables have no room is outside `Parseable`.
- DnsMessage.Pack: a buffer with room for the header but not for the question, which the source writes beyond. The
  process id is a parameter, and two bits of the fourth header byte stay as they were.
- SocksClient.Client.OnNegotiation: the low byte of a length is a signed character in the source; from 128 on it is
  outside `Sendable`, since the source then sends memory that is not the string's.
- SocksClient.Client.OnUP: the same for the host.
- SocksClient.Client.SendRemoteAddress: the same for the host.
- SocksClient.Client.OnServerConnect: a bound domain of 128 bytes or more is outside `DomainSane`, since its length is a
  signed character in the source and the array for it would have a negative size.
- SocksClient.Client.OnBindHost: the same.
- SocksClient.Client.DeliverAll: the same.
- SocksClient.Client.OnBindPort: the callback `on_server_connect` is set, and it stops the reading of the event.
- SocksServer.Server.OnAuth: where the input ends right behind the user name, the password is arbitrary in the model; in
  the source its length comes from a byte that was never read, and is taken not to be negative.
- SocksServer.Server.OnReadAddress: the copy of the request that the source keeps in a local array and does not use; a
  domain of 255 bytes, or one with a zero byte, makes that copy run past the array or the string.
- SocksServer.Server.OnConnect: the callback is also set where reading the address has just freed the event; the model
  gives that no meaning.
- Handshake.Session.ToServer: the server is given whole frames, because it consumes a domain request before it looks at
  its length; the client is given any pieces. What was written before an event is freed counts as sent.
