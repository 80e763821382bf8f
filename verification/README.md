# A verified model of the diagnostics exporter and of OpenVPN's data-path cores

The project models two parts of the repository in Dafny 4.11 and proves what they promise.

The diagnostics exporter (`diag-exporter`): the allocation of source files to threads by size (Scheduling,
Allocator), the export by several threads that share an id counter and a result vector
(ParallelExport), and the conversion of C types to JSON with a table of types seen before (QualTypes).

The OpenVPN sources kept as a dataset project: fragmentation and reassembly of datagrams (Fragmentation,
Reassembly, FragmentRoundTrip, FragmentMaster), the chained hash table and its iterator (HashTable,
HashIteration), base64 (Base64), renewable authentication tokens (AuthToken), static key files (KeyFile),
removal of router options from DHCP replies (Dhcp), the ring queue of reference-counted packets (RingQueue),
the merge of DNS server lists (Dns), the three kinds of event set (EventSets, EventBackends), and the filtered
clock with its rate limiter (Clock). Basics and Sequences hold what several of them use.

Where the code changes things in place, the model does too: classes with fields, arrays written by loops, and
linked nodes whose `next` fields are reassigned. Each such method is proved equal to a function of the old
state, or to a map or list operation, and the main results are lemmas about those functions: over every input,
every interleaving, or every run.

Conventions. Machine integers are unbounded except where the code depends on their width: thread loads and the
id counter are 32 bits wide and wrap, token times are 64 bits wide, base64 words are 32 bits wide. Constants of
header files that are not part of this model are parameters with the relations the code relies on: sequence ids
number more than twice the fragment slots, the bit map is as wide as the number of fragments, and the number of
hash buckets is positive. HMAC, hashing, random numbers, the system clock and the results of the compiler are
parameters. The DHCP option codes are those of sections 3.1, 3.2, 3.5 and 9.6 of RFC 2132, and base64 is that
of section 4 of RFC 4648.

Promises that need a condition. The load bound of the allocator needs loads that do not wrap at 32 bits.
`Allocator.LoadsFit` is an inequality on the sizes that a caller can check and that follows from a total below
2^32; `Allocator.WrapUnbalances` shows the bound failing without it, however ties are broken. The ring queue
needs a live item when a full queue is added to; `RingQueue.FailsExactly` says that a run fails exactly without
one, and `RingQueue.StuckRun` gives such runs.

Router removal, taken on its own, changes the message type of some malformed option fields: a deletion leaves
padding that takes the place of the missing value of a type option cut off at the end of the field.
`Dhcp.MessageTypeChanges` says for all fields exactly when, and `Dhcp.OthersLeft` says exactly when padding
completes an option at all. A type that was found is always kept, and the
program removes routers only from packets in which it found one, so no packet leaves with another type than it
came with (`Dhcp.ExtractRouterMsg`). Idempotence and termination of the removal hold for all fields.

For event sets the condition is proved both ways: an event is waited for as asked exactly when there was room.

`dafny verify dfyconfig.toml` checks the whole project.

## Model

| member | source | states |
|---|---|---|
| Scheduling.GrahamBound | diag-exporter/src/SourceBatchThreadAllocator.cpp:27-36 | a job put on a lightest of n machines leaves it with n times its load at most the total so far plus (n - 1) times that job |
| Scheduling.LongestFirstBound | diag-exporter/src/SourceBatchThreadAllocator.h:34-44 | longest job first: 3n times any load is at most (4n - 1) times the heaviest load of any other assignment of the same jobs |
| Scheduling.NoIdleMachine | diag-exporter/src/SourceBatchThreadAllocator.cpp:27-36 | with positive jobs and no more machines than jobs, every machine gets one |
| Allocator.AssignmentOfDistribution | diag-exporter/src/SourceBatchThreadAllocator.h:34-44 | every way to hand the files to n threads, as bags of files, is an assignment of the sorted files with the same loads, so the bound compares with all of them |
| Allocator.NoWrapGreedy | diag-exporter/src/SourceBatchThreadAllocator.cpp:27-36 | when, for every file, the sizes at least as large and n - 1 times its own stay below n times 2^32, no 32-bit `threadLoad` wraps, and the heap then always yields a truly lightest batch |
| Allocator.TotalFits | diag-exporter/src/SourceBatchThreadAllocator.h:15-18 | the inequality holds whenever the total size fits 32 bits |
| Allocator.NearOptimal | diag-exporter/src/SourceBatchThreadAllocator.h:34-44 | for any distribution of the same files with loads at most c, 3n times the size of every batch is at most (4n - 1)c |
| Allocator.WrapUnbalances | diag-exporter/src/SourceBatchThreadAllocator.h:15-23 | without that inequality the bound fails: four files of 2^31 bytes on two threads end 3/2 above the optimum, however ties are broken |
| Allocator.HeapRunAllocates | diag-exporter/src/SourceBatchThreadAllocator.cpp:27-43 | exactly n batches, together the input files each as often as given, each `threadLoad` the sum of its files modulo 2^32, in non-decreasing load |
| Allocator.DistributesIsMultiset | diag-exporter/src/SourceBatchThreadAllocator.cpp:38-43 | batches distribute the files exactly when their files together are the given files as a multiset |
| Allocator.HeapRunBalances | diag-exporter/src/SourceBatchThreadAllocator.h:34-44 | the bound against every distribution, and no empty batch when sizes are positive and n is at most the number of files |
| Allocator.SortBiggestFirst | diag-exporter/src/SourceBatchThreadAllocator.cpp:22-25 | the files in descending size, each as often as before |
| Allocator.SourceBatchThreadAllocator.constructor | diag-exporter/src/SourceBatchThreadAllocator.h:31-32 | an allocator holding the files and the number of threads |
| Allocator.SourceBatchThreadAllocator.AllocateGreedyMinHeap | diag-exporter/src/SourceBatchThreadAllocator.cpp:12-44 | the whole allocation: conservation for all inputs, and the bound whenever the sizes leave room for the loads |
| Allocator.SourceBatchThreadAllocator.Distribute | diag-exporter/src/SourceBatchThreadAllocator.cpp:27-36 | the pop, add, push loop is a run in which every file goes to a batch of least `threadLoad` |
| Allocator.SourceBatchThreadAllocator.Drain | diag-exporter/src/SourceBatchThreadAllocator.cpp:38-43 | the batches leave the heap lightest first, none lost or duplicated |
| ParallelExport.NextKeepsInv | diag-exporter/src/DiagnosticExporterAction.cpp:104-121 | every step of every thread keeps: ids drawn from the counter are distinct, below the total and owned by one action; every copy of a file is pending, finished or dropped, and finished ones are in the slots |
| ParallelExport.RunKeepsInv | diag-exporter/src/main.cpp:66-81 | the same over every interleaving |
| ParallelExport.InitInv | diag-exporter/src/main.cpp:142-173 | the batches of the allocator and the placeholder vector start such a run |
| ParallelExport.RaceFree | diag-exporter/src/DiagnosticExporterAction.h:61-73 | under every interleaving no slot is assigned out of range, twice or by two threads at once |
| ParallelExport.Collected | diag-exporter/src/main.cpp:142-173 | after all joins the vector holds, as a multiset, the finished files' results plus one placeholder per unfinished file |
| ParallelExport.CompleteExport | diag-exporter/src/main.cpp:142-173 | the output is a permutation of all files' results exactly when no file was skipped and no action ended early |
| ParallelExport.ValidateThreadNum | diag-exporter/src/main.cpp:45-63 | the number of threads is the least of the chosen number, the hardware's number and the number of files |
| ParallelExport.ThreadsForFiles | diag-exporter/src/main.cpp:45-63 | the allocator gets at least one thread, or no file, exactly when a thread was asked for and the hardware reports one, or there is no file |
| ParallelExport.DiagnosticExporterStatics.SetTotalFiles | diag-exporter/src/DiagnosticExporterAction.cpp:168-187 | one placeholder per file, the id counter untouched |
| QualTypes.QualTypeJsonConverter.ConvertQualTypeToJson | diag-exporter/src/QualTypeJsonConverter.cpp:197-230 | whatever was converted before, the JSON is that of the recursion without tables, and every table entry stays so |
| QualTypes.QualTypeJsonConverter.Visit | diag-exporter/src/QualTypeJsonConverter.cpp:99-109 | a type already in the table and one that is not give the same JSON; the type is in the table afterwards |
| QualTypes.QualTypeJsonConverter.VisitNode | diag-exporter/src/QualTypeJsonConverter.cpp:111-195 | the methods for the kinds of type agree with the recursion without tables |
| QualTypes.QualTypeJsonConverter.VisitParams | diag-exporter/src/QualTypeJsonConverter.cpp:180-183 | the parameter loop lists the JSON of every parameter type in order |
| QualTypes.QualTypeJsonConverter.VisitFunctionProto | diag-exporter/src/QualTypeJsonConverter.cpp:173-187 | the JSON of a function type with its return and parameter types |
| QualTypes.QualTypeJsonConverter.constructor | diag-exporter/src/QualTypeJsonConverter.h:39-39 | a converter starts with empty tables |
| QualTypes.FieldsIgnored | diag-exporter/src/QualTypeJsonConverter.cpp:158-171 | contexts that differ only in the fields of their records give the same JSON at every position: the recursion never enters a record |
| QualTypes.AnyFields | diag-exporter/src/QualTypeJsonConverter.cpp:158-164 | a record may have any fields, pointers to itself included, without changing any JSON |
| Fragmentation.UnpackFlags | repos/repos_output/dataset/projects/OpenVPN_openvpn_master/src_openvpn_fragment.c:150-185 | the header fields always lie within their masks |
| Fragmentation.UnpackPacked | repos/repos_output/dataset/projects/OpenVPN_openvpn_master/src_openvpn_fragment.c:259-294 | a header whose fields fit is read back from its packed flags |
| Fragmentation.PackedFits | repos/repos_output/dataset/projects/OpenVPN_openvpn_master/src_openvpn_fragment.c:259-294 | the packed header fits 32 bits |
| Fragmentation.FlagsRoundTrip | repos/repos_output/dataset/projects/OpenVPN_openvpn_master/src_openvpn_fragment.c:145-150 | the flags survive network byte order |
| Fragmentation.GetBuf | repos/repos_output/dataset/projects/OpenVPN_openvpn_master/src_openvpn_fragment.c:64-86 | the slot returned is inside the ring and the list stays well-formed |
| Fragmentation.SlotsDistinct | repos/repos_output/dataset/projects/OpenVPN_openvpn_master/src_openvpn_fragment.c:64-86 | distinct sequence ids in the window own distinct slots |
| Fragmentation.SlideByForgets | repos/repos_output/dataset/projects/OpenVPN_openvpn_master/src_openvpn_fragment.c:64-86 | advancing the window moves no slot and invalidates only ids that leave it |
| Fragmentation.GetBufWindow | repos/repos_output/dataset/projects/OpenVPN_openvpn_master/src_openvpn_fragment.c:64-86 | the id asked for is in the window and owns the slot returned; all other ids keep their slot or left the window |
| Fragmentation.StaysInWindow | repos/repos_output/dataset/projects/OpenVPN_openvpn_master/src_openvpn_fragment.c:64-86 | an id of the window stays in it exactly when the id asked for is in the window or less than the number of slots ahead |
| Reassembly.ReceiveOther | repos/repos_output/dataset/projects/OpenVPN_openvpn_master/src_openvpn_fragment.c:135-257 | a packet that is not a fragment of id leaves what is held for id untouched, unless id leaves the window: interleaved datagrams never mix |
| Reassembly.Receive | repos/repos_output/dataset/projects/OpenVPN_openvpn_master/src_openvpn_fragment.c:135-257 | on every input the list stays well-formed |
| Reassembly.OptimalSizeKeepsCount | repos/repos_output/dataset/projects/OpenVPN_openvpn_master/src_openvpn_fragment.c:296-317 | the smaller fragment size is aligned, positive, at most the aligned maximum, and takes the same number of fragments |
| Reassembly.SendsPiece | repos/repos_output/dataset/projects/OpenVPN_openvpn_master/src_openvpn_fragment.c:374-410 | each call sends the next piece of the datagram with its own header |
| Reassembly.EmitsPieces | repos/repos_output/dataset/projects/OpenVPN_openvpn_master/src_openvpn_fragment.c:374-410 | sending until done emits exactly the pieces, in order |
| FragmentRoundTrip.SentPackets | repos/repos_output/dataset/projects/OpenVPN_openvpn_master/src_openvpn_fragment.c:319-372 | an over-long datagram is sent as its pieces under the next sequence id, or refused exactly when it needs more than the maximum number |
| FragmentRoundTrip.PieceHeader | repos/repos_output/dataset/projects/OpenVPN_openvpn_master/src_openvpn_fragment.c:259-294 | the receiver reads from a piece its index, whether it is the last, its id and the fragment size |
| FragmentRoundTrip.ReceivePiece | repos/repos_output/dataset/projects/OpenVPN_openvpn_master/src_openvpn_fragment.c:135-257 | a piece, new or repeated, gives nothing until none is missing, then exactly the datagram |
| FragmentRoundTrip.RunHolds | repos/repos_output/dataset/projects/OpenVPN_openvpn_master/src_openvpn_fragment.c:135-257 | over any run of own pieces and foreign packets the slot holds exactly the pieces received |
| FragmentRoundTrip.RoundTrip | repos/repos_output/dataset/projects/OpenVPN_openvpn_master/src_openvpn_fragment.c:135-257 | pieces in any order, with repeats, among foreign packets: nothing until the last missing piece, then the original bytes |
| FragmentRoundTrip.ArcUndisturbed | repos/repos_output/dataset/projects/OpenVPN_openvpn_master/src_openvpn_fragment.c:64-86 | when the own id, the newest and all other fragment ids lie in one arc of as many ids as there are slots, no packet pushes the own id out; when the arc starts at the own id the newest may be anywhere |
| FragmentRoundTrip.NearbyRoundTrip | repos/repos_output/dataset/projects/OpenVPN_openvpn_master/src_openvpn_fragment.c:135-257 | the round trip under that condition: the other fragments belong to datagrams shortly before or after |
| FragmentRoundTrip.WholeRoundTrip | repos/repos_output/dataset/projects/OpenVPN_openvpn_master/src_openvpn_fragment.c:319-372 | a datagram that needs no fragments is sent whole and comes back at once, the receiver unchanged |
| FragmentMaster.FragmentMaster.constructor | repos/repos_output/dataset/projects/OpenVPN_openvpn_master/src_openvpn_fragment.c:88-110 | nothing is held for any id |
| FragmentMaster.FragmentMaster.GetBuf | repos/repos_output/dataset/projects/OpenVPN_openvpn_master/src_openvpn_fragment.c:64-86 | the in-place window update is the function the window lemmas are about |
| FragmentMaster.FragmentMaster.Incoming | repos/repos_output/dataset/projects/OpenVPN_openvpn_master/src_openvpn_fragment.c:135-257 | the in-place receiver is the function the round trip is about |
| FragmentMaster.FragmentMaster.JoinFragment | repos/repos_output/dataset/projects/OpenVPN_openvpn_master/src_openvpn_fragment.c:206-236 | only the slot of the fragment changes |
| FragmentMaster.FragmentMaster.ReadyToSend | repos/repos_output/dataset/projects/OpenVPN_openvpn_master/src_openvpn_fragment.c:374-410 | ready exactly when something is left to send; then the next piece |
| FragmentMaster.FragmentMaster.Outgoing | repos/repos_output/dataset/projects/OpenVPN_openvpn_master/src_openvpn_fragment.c:319-372 | the in-place sender is the function the round trip is about |
| HashTable.Find | repos/repos_output/dataset/projects/OpenVPN_openvpn_master/src_openvpn_list.c:82-111 | the element with this key and hash, or none in the list has them |
| HashTable.MoveToFront | repos/repos_output/dataset/projects/OpenVPN_openvpn_master/src_openvpn_list.c:97-103 | relinking puts the element first and keeps the order of the others |
| HashTable.Unlink | repos/repos_output/dataset/projects/OpenVPN_openvpn_master/src_openvpn_list.c:113-144 | relinking takes one element out and keeps the order of the others |
| HashTable.Prune | repos/repos_output/dataset/projects/OpenVPN_openvpn_master/src_openvpn_list.c:191-220 | one pass takes out every marked element and no other, and counts them |
| HashTable.Hash.constructor | repos/repos_output/dataset/projects/OpenVPN_openvpn_master/src_openvpn_list.c:37-60 | an empty map |
| HashTable.Hash.Promote | repos/repos_output/dataset/projects/OpenVPN_openvpn_master/src_openvpn_list.c:97-103 | move-to-front keeps the table a table of the same elements |
| HashTable.Hash.LookupFast | repos/repos_output/dataset/projects/OpenVPN_openvpn_master/src_openvpn_list.c:82-111 | the element of the key, or null exactly when the map lacks it; the map is unchanged by move-to-front |
| HashTable.Hash.Lookup | repos/repos_output/dataset/projects/OpenVPN_openvpn_master/src_openvpn_list.c:82-111 | lookup in the map |
| HashTable.Hash.AddFast | repos/repos_output/dataset/projects/OpenVPN_openvpn_master/src_openvpn_list.c:146-172 | the map gains the key |
| HashTable.Hash.Add | repos/repos_output/dataset/projects/OpenVPN_openvpn_master/src_openvpn_list.c:146-172 | false exactly when the key is there and is not to be replaced; otherwise the map is updated; `n_elements` is its size |
| HashTable.Hash.RemoveFast | repos/repos_output/dataset/projects/OpenVPN_openvpn_master/src_openvpn_list.c:113-144 | true exactly when the key was there; the map loses it |
| HashTable.Hash.Remove | repos/repos_output/dataset/projects/OpenVPN_openvpn_master/src_openvpn_list.c:113-144 | the same on the map, and `n_elements` is its size |
| HashTable.Hash.Mark | repos/repos_output/dataset/projects/OpenVPN_openvpn_master/src_openvpn_list.c:320-326 | a marked element is out of the map and stays linked |
| HashTable.Hash.RemoveMarked | repos/repos_output/dataset/projects/OpenVPN_openvpn_master/src_openvpn_list.c:191-220 | exactly the marked elements of the bucket go; the map is unchanged |
| HashIteration.HashIterator.InitRange | repos/repos_output/dataset/projects/OpenVPN_openvpn_master/src_openvpn_list.c:222-243 | exactly the elements of the buckets of the range, cut to the number of buckets, are to be returned |
| HashIteration.HashIterator.constructor | repos/repos_output/dataset/projects/OpenVPN_openvpn_master/src_openvpn_list.c:245-250 | every element is still to be returned |
| HashIteration.HashIterator.Lock | repos/repos_output/dataset/projects/OpenVPN_openvpn_master/src_openvpn_list.c:252-258 | the iterator stands at the head of the bucket |
| HashIteration.HashIterator.Unlock | repos/repos_output/dataset/projects/OpenVPN_openvpn_master/src_openvpn_list.c:260-273 | leaving a bucket, at its end or in the middle, removes the elements marked in it and changes nothing else of the map |
| HashIteration.HashIterator.Advance | repos/repos_output/dataset/projects/OpenVPN_openvpn_master/src_openvpn_list.c:275-280 | the element returned is one still to come and no longer is |
| HashIteration.HashIterator.Next | repos/repos_output/dataset/projects/OpenVPN_openvpn_master/src_openvpn_list.c:288-318 | an element not returned before, each once; null exactly when none is left; only marked elements are freed on the way |
| HashIteration.HashIterator.DeleteElement | repos/repos_output/dataset/projects/OpenVPN_openvpn_master/src_openvpn_list.c:320-326 | the last element returned leaves the map; what is still to come does not change |
| HashIteration.HashIterator.Free | repos/repos_output/dataset/projects/OpenVPN_openvpn_master/src_openvpn_list.c:282-286 | at any point of the iteration: a valid table with the same map from which exactly the marked elements are gone |
| HashIteration.RemoveByValue | repos/repos_output/dataset/projects/OpenVPN_openvpn_master/src_openvpn_list.c:174-189 | exactly the entries with this value are gone, and `n_elements` is the size of the map |
| Base64.EncodeLength | repos/repos_output/dataset/projects/OpenVPN_openvpn_master/src_openvpn_base64.c:51-102 | four characters per started group of three bytes |
| Base64.EncodeConcat | repos/repos_output/dataset/projects/OpenVPN_openvpn_master/src_openvpn_base64.c:51-102 | encoding a prefix whose length is divisible by three, then the rest, is encoding the whole |
| Base64.EncodeBuffer | repos/repos_output/dataset/projects/OpenVPN_openvpn_master/src_openvpn_base64.c:51-102 | size * 4 / 3 + 4 characters always hold the encoding and its terminator |
| Base64.FindPos | repos/repos_output/dataset/projects/OpenVPN_openvpn_master/src_openvpn_base64.c:104-116 | the place of a character in the alphabet, or -1 |
| Base64.PosChar | repos/repos_output/dataset/projects/OpenVPN_openvpn_master/src_openvpn_base64.c:104-116 | looking up an alphabet character inverts taking it |
| Base64.GroupRoundTrip | repos/repos_output/dataset/projects/OpenVPN_openvpn_master/src_openvpn_base64.c:120-151 | the token of one, two or three bytes decodes to them |
| Base64.RoundTrip | repos/repos_output/dataset/projects/OpenVPN_openvpn_master/src_openvpn_base64.c:157-200 | decoding an encoding gives the bytes whenever they fit the room, and fails exactly when they do not |
| Base64.TokenDecodeAt | repos/repos_output/dataset/projects/OpenVPN_openvpn_master/src_openvpn_base64.c:120-151 | the token at a position, or the error value when fewer than four characters are left |
| Base64.DecodeBuffer | repos/repos_output/dataset/projects/OpenVPN_openvpn_master/src_openvpn_base64.c:157-200 | the in-place decoder is that function, and returns -1 where it has no value |
| AuthToken.StampRoundTrip | repos/repos_output/dataset/projects/OpenVPN_openvpn_master/src_openvpn_auth_token.c:325-330 | a time survives its eight network bytes |
| AuthToken.TokenShape | repos/repos_output/dataset/projects/OpenVPN_openvpn_master/src_openvpn_auth_token.c:185-200 | the base64 text of a token starts with that of its session id, then that of its first timestamp: the slices the renewal decodes |
| AuthToken.ReadsInitial | repos/repos_output/dataset/projects/OpenVPN_openvpn_master/src_openvpn_auth_token.c:176-201 | the session id and initial time read back from a token are those it was made with: the internal assertions hold |
| AuthToken.SessionKept | repos/repos_output/dataset/projects/OpenVPN_openvpn_master/src_openvpn_auth_token.c:163-274 | over any run of renewals every token carries the session id and initial time of the first |
| AuthToken.VerifyUnfold | repos/repos_output/dataset/projects/OpenVPN_openvpn_master/src_openvpn_auth_token.c:293-398 | what verification of any token made with this key gives, case by case |
| AuthToken.OwnTokenVerified | repos/repos_output/dataset/projects/OpenVPN_openvpn_master/src_openvpn_auth_token.c:293-398 | a token of the session is accepted, and expired exactly outside [timestamp, timestamp + 2 renewal) or past the lifetime |
| AuthToken.ForeignSessionRejected | repos/repos_output/dataset/projects/OpenVPN_openvpn_master/src_openvpn_auth_token.c:385-397 | a token of another session is refused |
| AuthToken.RenewedTokenAccepted | repos/repos_output/dataset/projects/OpenVPN_openvpn_master/src_openvpn_auth_token.c:163-398 | each token of a run of renewals, presented with its own name, is accepted and expires exactly as stated, with the lifetime counted from the first |
| AuthToken.TlsMulti.constructor | repos/repos_output/dataset/projects/OpenVPN_openvpn_master/src_openvpn_auth_token.c:163-274 | no token yet |
| AuthToken.TlsMulti.ReadOrigin | repos/repos_output/dataset/projects/OpenVPN_openvpn_master/src_openvpn_auth_token.c:176-201 | the two decodings of the first token have the asserted lengths and give its session id and time |
| AuthToken.TlsMulti.GenerateAuthToken | repos/repos_output/dataset/projects/OpenVPN_openvpn_master/src_openvpn_auth_token.c:163-274 | the in-place renewal is that function; it never fails |
| AuthToken.TlsMulti.CheckExpiry | repos/repos_output/dataset/projects/OpenVPN_openvpn_master/src_openvpn_auth_token.c:351-376 | the two checks in sequence give the stated expiry |
| AuthToken.TlsMulti.VerifyAuthToken | repos/repos_output/dataset/projects/OpenVPN_openvpn_master/src_openvpn_auth_token.c:293-398 | the in-place verification is that function |
| KeyFile.HexRoundTrip | repos/repos_output/dataset/projects/OpenVPN_openvpn_master/src_openvpn_buffer.c:482-511 | two printed hex digits read back as the byte, and neither starts a footer |
| KeyFile.RunKeepsSafe | repos/repos_output/dataset/projects/OpenVPN_openvpn_master/src_openvpn_crypto.c:1334-1434 | over every text at most one hex digit is pending and at most the room for the keys is stored |
| KeyFile.RunSafe | repos/repos_output/dataset/projects/OpenVPN_openvpn_master/src_openvpn_crypto.c:1334-1434 | whatever the text, `hb_index` is below 2 and at most two keys result |
| KeyFile.FinishedStays | repos/repos_output/dataset/projects/OpenVPN_openvpn_master/src_openvpn_crypto.c:1334-1434 | text behind the footer changes nothing |
| KeyFile.SkipsComment | repos/repos_output/dataset/projects/OpenVPN_openvpn_master/src_openvpn_crypto.c:1334-1434 | a comment line before the header is passed over |
| KeyFile.ReadsHex | repos/repos_output/dataset/projects/OpenVPN_openvpn_master/src_openvpn_crypto.c:1334-1434 | hex text with its line breaks is read as the bytes printed |
| KeyFile.RoundTrip | repos/repos_output/dataset/projects/OpenVPN_openvpn_master/src_openvpn_crypto.c:1482-1523 | one or two keys are recovered byte for byte from the printed file, ending in PARSE_FINISHED |
| KeyFile.HexBufferSuffices | repos/repos_output/dataset/projects/OpenVPN_openvpn_master/src_openvpn_buffer.c:482-511 | the text of a key never outgrows the buffer of the printer |
| KeyFile.FileBufferSuffices | repos/repos_output/dataset/projects/OpenVPN_openvpn_master/src_openvpn_crypto.c:1482-1523 | a file of one or two keys of 128 bytes fits the 2048 bytes it is printed to |
| KeyFile.FormatHexEx | repos/repos_output/dataset/projects/OpenVPN_openvpn_master/src_openvpn_buffer.c:482-511 | the printing loop is the function the parser reads back |
| KeyFile.WriteKeyFile | repos/repos_output/dataset/projects/OpenVPN_openvpn_master/src_openvpn_crypto.c:1482-1523 | the file text is the function the round trip is about, and the number of bits it names |
| KeyFile.CompareLine | repos/repos_output/dataset/projects/OpenVPN_openvpn_master/src_openvpn_crypto.c:1367-1389 | the comparison with header and footer |
| KeyFile.ReadDataChar | repos/repos_output/dataset/projects/OpenVPN_openvpn_master/src_openvpn_crypto.c:1391-1422 | the assertions on the hex buffer and on the room for the keys hold |
| KeyFile.ReadChar | repos/repos_output/dataset/projects/OpenVPN_openvpn_master/src_openvpn_crypto.c:1334-1434 | one round of the loop is one step of the parser |
| KeyFile.PrintedAccepted | repos/repos_output/dataset/projects/OpenVPN_openvpn_master/src_openvpn_crypto.c:1436-1450 | a printed file is accepted, read from a file or inline with its terminator, also when reading must succeed |
| KeyFile.ReadLoop | repos/repos_output/dataset/projects/OpenVPN_openvpn_master/src_openvpn_crypto.c:1334-1427 | the character loop is the parser |
| KeyFile.ReadChars | repos/repos_output/dataset/projects/OpenVPN_openvpn_master/src_openvpn_crypto.c:1334-1434 | the state, bytes and number of keys after the loop; at most two keys |
| KeyFile.ReadKeyFile | repos/repos_output/dataset/projects/OpenVPN_openvpn_master/src_openvpn_crypto.c:1278-1480 | the loop and the checks after it: failure exactly at a foreign character or, when reading must succeed, without a key or the footer |
| Dhcp.DeleteShrinks | repos/repos_output/dataset/projects/OpenVPN_openvpn_master/src_openvpn_dhcp.c:108-120 | a deletion leaves fewer router-valued bytes: the loop ends although it does not advance |
| Dhcp.ScanRemoves | repos/repos_output/dataset/projects/OpenVPN_openvpn_master/src_openvpn_dhcp.c:76-146 | whatever the field, no complete router option the scan can reach is left |
| Dhcp.SecondPass | repos/repos_output/dataset/projects/OpenVPN_openvpn_master/src_openvpn_dhcp.c:76-146 | whatever the field, a second pass changes nothing and finds nothing |
| Dhcp.WellFormedScan | repos/repos_output/dataset/projects/OpenVPN_openvpn_master/src_openvpn_dhcp.c:76-146 | on a well-formed field exactly the router options are cut out and the end is padded; the other options keep order and contents; the address is the first non-zero one of a router option |
| Dhcp.OthersLeft | repos/repos_output/dataset/projects/OpenVPN_openvpn_master/src_openvpn_dhcp.c:76-146 | on every field the other options are left, in order and unchanged, and at most one more: exactly when the padding completes an option cut off at the end; the condition is on the field alone |
| Dhcp.MessageTypeOfOptions | repos/repos_output/dataset/projects/OpenVPN_openvpn_master/src_openvpn_dhcp.c:36-74 | on a well-formed field the scan finds the first message type option, and its value when its length is one |
| Dhcp.MessageTypeChanges | repos/repos_output/dataset/projects/OpenVPN_openvpn_master/src_openvpn_dhcp.c:36-146 | whatever the field, removing routers changes the message type exactly when a type option cut off after its length byte ends the field behind a router option, and then from none to 0 |
| Dhcp.RouterThenCutOff | repos/repos_output/dataset/projects/OpenVPN_openvpn_master/src_openvpn_dhcp.c:36-146 | such fields exist for every router option |
| Dhcp.MessageTypeKept | repos/repos_output/dataset/projects/OpenVPN_openvpn_master/src_openvpn_dhcp.c:36-146 | a type that was found is kept on every field, malformed ones included; on a well-formed field its absence is kept too |
| Dhcp.GetMessageType | repos/repos_output/dataset/projects/OpenVPN_openvpn_master/src_openvpn_dhcp.c:36-74 | the index loop is the scan, also where an option runs past the end |
| Dhcp.DeleteAt | repos/repos_output/dataset/projects/OpenVPN_openvpn_master/src_openvpn_dhcp.c:108-120 | the bytes before stay, the tail moves down, padding fills the end |
| Dhcp.RemoveRouter | repos/repos_output/dataset/projects/OpenVPN_openvpn_master/src_openvpn_dhcp.c:95-121 | the branch of the loop for a router option |
| Dhcp.ExtractStep | repos/repos_output/dataset/projects/OpenVPN_openvpn_master/src_openvpn_dhcp.c:82-143 | one round of the loop leaves the same end of the scan and makes progress, or stops where the scan stops |
| Dhcp.Extract | repos/repos_output/dataset/projects/OpenVPN_openvpn_master/src_openvpn_dhcp.c:76-146 | the loop in place is the scan, for every field |
| Dhcp.ExtractRouterMsg | repos/repos_output/dataset/projects/OpenVPN_openvpn_master/src_openvpn_dhcp.c:148-187 | whatever the packet its message type is the same afterwards; only acknowledgements and offers are changed, and only acknowledgements give an address |
| RingQueue.ExtractIsFifo | repos/repos_output/dataset/projects/OpenVPN_openvpn_master/src_openvpn_mbuf.c:110-129 | extraction takes the first live item and leaves the others in order |
| RingQueue.ForgetLive | repos/repos_output/dataset/projects/OpenVPN_openvpn_master/src_openvpn_mbuf.c:151-169 | dereferencing a client removes its items and keeps the order of the rest |
| RingQueue.OneFate | repos/repos_output/dataset/projects/OpenVPN_openvpn_master/src_openvpn_mbuf.c:88-169 | over every run in which no add has failed, each item added is extracted, dropped, forgotten or still queued, exactly one of these and once |
| RingQueue.FailsExactly | repos/repos_output/dataset/projects/OpenVPN_openvpn_master/src_openvpn_mbuf.c:88-101 | a run ends in the failed assertion of an add exactly when an add met a full queue without a live item |
| RingQueue.StuckRun | repos/repos_output/dataset/projects/OpenVPN_openvpn_master/src_openvpn_mbuf.c:88-101 | such runs exist for every capacity: a queue filled for one client that then goes |
| RingQueue.ArrivalOrder | repos/repos_output/dataset/projects/OpenVPN_openvpn_master/src_openvpn_mbuf.c:88-169 | over every run, what was extracted and then what is queued are in arrival order |
| RingQueue.FreeBuf | repos/repos_output/dataset/projects/OpenVPN_openvpn_master/src_openvpn_mbuf.c:75-86 | one reference less; freed exactly when it was the last, and never twice |
| RingQueue.MbufBuffer.constructor | repos/repos_output/dataset/projects/OpenVPN_openvpn_master/src_openvpn_mbuf.c:64-73 | a buffer held once |
| RingQueue.MbufSet.constructor | repos/repos_output/dataset/projects/OpenVPN_openvpn_master/src_openvpn_mbuf.c:38-46 | an empty queue |
| RingQueue.MbufSet.AllocBuf | repos/repos_output/dataset/projects/OpenVPN_openvpn_master/src_openvpn_mbuf.c:64-73 | a new buffer held once outside the queue |
| RingQueue.MbufSet.Release | repos/repos_output/dataset/projects/OpenVPN_openvpn_master/src_openvpn_mbuf.c:75-86 | a holder outside gives up its reference; the buffer is freed exactly when nothing refers to it |
| RingQueue.MbufSet.ExtractSlot | repos/repos_output/dataset/projects/OpenVPN_openvpn_master/src_openvpn_mbuf.c:110-129 | the oldest live slot, and what is behind it |
| RingQueue.MbufSet.ExtractItem | repos/repos_output/dataset/projects/OpenVPN_openvpn_master/src_openvpn_mbuf.c:110-129 | the reference moves from the queue to the caller; every `refcount` stays slots plus outside holders |
| RingQueue.MbufSet.DropOldest | repos/repos_output/dataset/projects/OpenVPN_openvpn_master/src_openvpn_mbuf.c:91-98 | a full queue loses its oldest live item and its reference |
| RingQueue.MbufSet.AddItem | repos/repos_output/dataset/projects/OpenVPN_openvpn_master/src_openvpn_mbuf.c:88-108 | the item is queued last, after a full queue dropped exactly its oldest live item; all counts stay exact |
| RingQueue.MbufSet.Peek | repos/repos_output/dataset/projects/OpenVPN_openvpn_master/src_openvpn_mbuf.c:131-149 | the client of the oldest live item |
| RingQueue.MbufSet.DereferenceInstance | repos/repos_output/dataset/projects/OpenVPN_openvpn_master/src_openvpn_mbuf.c:151-169 | every slot of the client gives up its reference and keeps its place |
| RingQueue.MbufSet.Free | repos/repos_output/dataset/projects/OpenVPN_openvpn_master/src_openvpn_mbuf.c:48-62 | the queue gives up all its references; those held outside remain |
| Dns.MergeIsUnion | repos/repos_output/dataset/projects/OpenVPN_openvpn_master/src_openvpn_dns.c:270-304 | the merge is the union of the two tables in which a pulled server overrides a static one |
| Dns.MergeSorted | repos/repos_output/dataset/projects/OpenVPN_openvpn_master/src_openvpn_dns.c:270-304 | the merge is strictly in order, so with one server per priority |
| Dns.DnsOptions.ServerGet | repos/repos_output/dataset/projects/OpenVPN_openvpn_master/src_openvpn_dns.c:174-194 | the server of the priority, new and in its place when there was none; the list stays strictly in order |
| Dns.DnsOptions.PreprocessPull | repos/repos_output/dataset/projects/OpenVPN_openvpn_master/src_openvpn_dns.c:263-268 | the configured servers are set aside |
| Dns.DnsOptions.MergeFront | repos/repos_output/dataset/projects/OpenVPN_openvpn_master/src_openvpn_dns.c:280-288 | a static server is linked in front of the pulled one |
| Dns.DnsOptions.PostprocessPull | repos/repos_output/dataset/projects/OpenVPN_openvpn_master/src_openvpn_dns.c:270-304 | relinking in place gives the strictly ordered list of the union, pulled over static |
| EventSets.HandleCtlRefines | repos/repos_output/dataset/projects/OpenVPN_openvpn_master/src_openvpn_event.c:232-382 | after ctl the handles wanted are those asked for exactly when there was room, the error is reported exactly when not, other events are untouched, one entry per handle |
| EventSets.PollCtlRefines | repos/repos_output/dataset/projects/OpenVPN_openvpn_master/src_openvpn_event.c:776-815 | the same for the list of descriptors: it fails exactly for a new descriptor in a full list |
| EventSets.PollDelRefines | repos/repos_output/dataset/projects/OpenVPN_openvpn_master/src_openvpn_event.c:719-742 | nothing is asked of the descriptor, others are untouched, one entry per descriptor |
| EventSets.HasWithout | repos/repos_output/dataset/projects/OpenVPN_openvpn_master/src_openvpn_event.c:148-171 | no handle of the event is left, all others are |
| EventSets.SelectRefines | repos/repos_output/dataset/projects/OpenVPN_openvpn_master/src_openvpn_event.c:938-1008 | the descriptor sets hold what was asked exactly when the descriptor is in range; `maxfd` stays below the capacity and above every descriptor |
| EventSets.FastOnFresh | repos/repos_output/dataset/projects/OpenVPN_openvpn_master/src_openvpn_event.c:959-1008 | on a descriptor of which nothing is asked the fast mode agrees with the other |
| EventSets.RunAgrees | repos/repos_output/dataset/projects/OpenVPN_openvpn_master/src_openvpn_event.c:94-1008 | over every run of ctl and del within capacity the three forms stand for the same map: what the last operation on each event asked |
| EventBackends.HandleSet.AppendEvent | repos/repos_output/dataset/projects/OpenVPN_openvpn_master/src_openvpn_event.c:118-146 | append, write handle first, as far as there is room |
| EventBackends.HandleSet.DelEvent | repos/repos_output/dataset/projects/OpenVPN_openvpn_master/src_openvpn_event.c:148-171 | compaction in place removes exactly the entries of the event and keeps the order |
| EventBackends.HandleSet.DelIndex | repos/repos_output/dataset/projects/OpenVPN_openvpn_master/src_openvpn_event.c:173-184 | shifting in place removes one entry |
| EventBackends.HandleSet.GetRwIndices | repos/repos_output/dataset/projects/OpenVPN_openvpn_master/src_openvpn_event.c:186-205 | the places of the two handles; the uniqueness assertions hold |
| EventBackends.HandleSet.Del | repos/repos_output/dataset/projects/OpenVPN_openvpn_master/src_openvpn_event.c:224-230 | the event is gone |
| EventBackends.HandleSet.Ctl | repos/repos_output/dataset/projects/OpenVPN_openvpn_master/src_openvpn_event.c:232-382 | the update in place is the function that refines the map, and keeps one entry per handle |
| EventBackends.PollSet.Del | repos/repos_output/dataset/projects/OpenVPN_openvpn_master/src_openvpn_event.c:719-742 | the update in place is the function that refines the map |
| EventBackends.PollSet.Ctl | repos/repos_output/dataset/projects/OpenVPN_openvpn_master/src_openvpn_event.c:776-815 | the update in place is the function that refines the map |
| EventBackends.SelectSet.Ctl | repos/repos_output/dataset/projects/OpenVPN_openvpn_master/src_openvpn_event.c:959-1008 | the update in either mode is its function; outside the fast mode the one that refines the map |
| EventBackends.SelectSet.Del | repos/repos_output/dataset/projects/OpenVPN_openvpn_master/src_openvpn_event.c:938-957 | the update is the function that refines the map |
| Clock.UpdateStep | repos/repos_output/dataset/projects/OpenVPN_openvpn_master/src_openvpn_otime.c:44-76 | one reading, with or without microseconds, never moves `now` or the pair with microseconds back, keeps the adjustment non-negative and the adjusted time within ten seconds behind `now`; repeating it changes nothing |
| Clock.NeverBack | repos/repos_output/dataset/projects/OpenVPN_openvpn_master/src_openvpn_otime.c:44-76 | the same over every sequence of readings of both kinds, mixed in any way |
| Clock.TwiceMax | repos/repos_output/dataset/projects/OpenVPN_openvpn_master/src_openvpn_otime.c:166-184 | any span of `per` seconds, ends included, admits at most twice `max` events, whatever happened before |
| Clock.TwiceMaxReached | repos/repos_output/dataset/projects/OpenVPN_openvpn_master/src_openvpn_otime.c:166-184 | the factor two is reached, for every `max` and `per` |
| Clock.ConnectionLimit | repos/repos_output/dataset/projects/OpenVPN_openvpn_master/src_openvpn_otime.c:44-184 | the limit holds on the filtered clock however the system clock jumps |
| Clock.Globals.Update | repos/repos_output/dataset/projects/OpenVPN_openvpn_master/src_openvpn_otime.c:44-65 | the update in place is that function and keeps its invariants |
| Clock.Globals.UpdateUsec | repos/repos_output/dataset/projects/OpenVPN_openvpn_master/src_openvpn_otime.c:67-76 | the same with microseconds |
| Clock.FrequencyLimit.constructor | repos/repos_output/dataset/projects/OpenVPN_openvpn_master/src_openvpn_otime.c:145-158 | no event counted yet |
| Clock.FrequencyLimit.EventAllowed | repos/repos_output/dataset/projects/OpenVPN_openvpn_master/src_openvpn_otime.c:166-184 | the update in place is the function the limit is about |

## Left out

- Allocator.NearOptimal: the bound is proved under `LoadsFit` in one direction only, because a run whose loads wrap may still happen to be balanced; the counterexample covers the other side.
- ParallelExport.RaceFree: a compiler run is one `Create`, then an optional result; a file with several compile commands and the branch with a single thread are not modelled.
- ParallelExport.ThreadsForFiles: choosing zero threads with files to do takes the top of an empty heap, which is undefined; the allocator model requires that it does not happen and the lemma says when.
- HashIteration.HashIterator.Next: lookups and additions during an iteration are not modelled.
- HashTable.Hash.Add: keys are compared by equality and the hash is a function of the key; other comparison functions are not modelled.
- AuthToken.OwnTokenVerified: times, the lifetime and twice the renewal time are below 2^63, so the 64-bit sums do not wrap; the width of the configured renewal time is not modelled.
- KeyFile.ReadKeyFile: opening and reading the file and the wording of the messages are not modelled; where the program would end, `fatal` is returned.
- RingQueue.MbufSet.AddItem: the caller holds a reference and a full queue holds a live item, as the assertions of the code demand; the capacity is any positive number, and indexing with a mask is the remainder.
- RingQueue.FreeBuf: freeing is a flag on the buffer, so use of freed memory is excluded by proof and memory itself is not modelled.
- Dns.DnsOptions.ServerGet: parsing of priorities, addresses, domains and the cloning of options are not modelled.
- EventBackends.HandleSet.Ctl: handles of different events and directions are taken to be distinct; the argument of an entry that stays in place is not updated by the code and nothing is claimed about it.
- EventBackends.SelectSet.Ctl: resetting a fast set and waiting are not modelled.
- Clock.TwiceMax: the event counter is unbounded, so wrapping after 2^31 refused events is not modelled.
- QualTypes.QualTypeJsonConverter.ConvertQualTypeToJson: spellings, usage in declarations and qualifiers are given with the type; how Clang prints them is not modelled.
- Time-based removal of stale fragments is not modelled.
- Rejection of malformed base64 is not claimed: the decoder accepts some invalid characters inside a token.
- Checksum recomputation after DHCP changes, client NAT, compression and MSS adjustment are not modelled.
- The evaluation scripts, the dataset download and the plotting code only call other programs and hold no state to reason about.
- Memory allocation failure, logging and file input and output are not modelled.
