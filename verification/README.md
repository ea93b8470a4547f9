# Corosig: a verified model of its core

Corosig is a C++20 coroutine runtime that lives inside signal handlers: one thread, one fixed
buffer, no system allocator. This project models the parts of it that hold state or parse bytes
and proves what they promise. Everything stated is proved for all inputs, all runs or all
reachable states; nothing is bounded except where the program itself has a bound.

Where the source updates fields or buffers in place the model is a class or a method with loops
(`Allocator`, `Vector`, `Map`, `MessageWriter`, `ResponseDecoder`, `LabelsIterator`, `Reactor`,
`Semaphore`, `MemoryCache`, `ChaCha20RandomGenerator`, `ParseDomainName`, `ReadAddress`). Each is
proved against a function on values, and the theorems are about those functions and about runs
of them. Calls from outside (other users' writes into their own memory, coroutines that run
inside a resume, allocation failures, poll results, hash values) are parameters that the
theorems quantify over.

| files | what they model |
|---|---|
| `HeapArith`, `HeapModel`, `HeapTiling`, `HeapOps`, `HeapAlloc`, `HeapFree`, `HeapRuns`, `HeapTheorems`, `HeapList`, `HeapWrap`, `Allocator` | the boundary-tag block allocator, its runs, and the class in place |
| `DnsParser`, `DnsTermination`, `DnsNames`, `DnsEncoder`, `DnsCompression`, `DnsQuestion` | the DNS wire format: name parser and when it stops, unchecked iterator, compressing encoder, questions |
| `Lex`, `CompressionMap`, `Vector` | the sorted compression map and the vector under it |
| `Reactor` | one poll pass, with re-entrant coroutines |
| `MemoryCache`, `MemoryCacheAnswers`, `MemoryCacheNames`, `MemoryCacheRuns`, `MemoryCacheClass` | the DNS memory cache with its two indexes |
| `Semaphore` | the counting semaphore and its hand-off |
| `Ipv6`, `Ipv6Grammar`, `Random`, `RandomVector` | IPv6 text, the buffered ChaCha20 byte stream |

## Main results

1. **Allocator.** Every run of `allocate`, `deallocate` and user writes keeps the heap well formed
   (`HeapTheorems.RunKeepsInv`); `allocate` answers null exactly when no placement exists anywhere
   in the buffer (`HeapRuns.FailsIffNoPlacement`), and otherwise from the first chunk of the free
   list that has enough (`HeapList.AnswerIsFromFirst`); live areas never overlap, keep their contents
   until their own user changes them, and once all are returned the heap is as it was built.
2. **Compression preserves meaning.** Any sequence of names and other octets written with one
   shared map reads back label by label, through the parser and through the unchecked iterator, if
   and only if the dot-stripped name has at most 253 octets (`DnsEncoder.WrittenNameParses`). Exactly
   what each call writes and remembers is `DnsCompression.EncodeIsExact`.
3. **The parser** accepts, on every message and every span of it, exactly the names of at most 255
   octets that the octets spell through whatever pointers (`DnsNames.AcceptsIffSpelled`); what it
   accepts the unchecked iterator yields. A call goes on for ever if and only if it comes to an
   endless pointer chain that its loop check does not remember
   (`DnsTermination.GoesOnForeverIff`), and otherwise stops within a bound that can be computed.
4. **Reactor.** Matching pollfds by handle is right for every poll result and everything the
   coroutines may do, if and only if handles tell the nodes apart
   (`ReactorPoll.ExactIffHandlesTellApart`). No node is ever lost, whatever the handles.
5. **Memory cache.** Over every run the two indexes stay consistent if and only if every push finds
   its place, and then every pull answers with the first entries pushed under that name, whatever
   the case of its letters, that have not expired (`CacheRuns.RunAgreesIff`); a failed push leaves the cache as it was; a prune cannot be noticed
   later.
6. **Semaphore.** Every run keeps exact accounts and grants first-in-first-out, if and only if twice
   the maximum fits `size_t` (`SemaphoreModel.RunsAreSafeIff`); every drain ends idle; requests are
   served in order of arrival if and only if none overtakes (`SemaphoreModel.RunServesInOrderIff`).
7. **IPv6 text.** Exactly which texts are accepted, and as which address (`Ipv6Grammar.AcceptedIff`).

## Where the code does less than one might expect

Each of these is a lemma with a concrete input or family, and a lemma with the exact condition.

- The parser's loop check (`src/io/dns/Protocol.cpp:138-151`) remembers only the first target: a
  pointer to a pointer to a self-pointer is followed for ever (`SomeMessageDiverges`,
  `GoesOnForeverIff`).
- `bytes_to_consume` has 8 bits: a name of 256 octets on the wire (254 octets of labels and a
  pointer) is accepted and nothing is consumed (`SomeNameConsumesNothing`, `ConsumedIsOnWire`).
- The encoder accepts dot-stripped names of 254 and 255 octets, which the parser rejects
  (`LongQuestionIsNotReadBack`, `WrittenNameParses`, `QuestionReadsBackIff`).
- Two nodes with one handle can be mixed up in a poll pass (`SharedHandleMisleads`,
  `ExactIffHandlesTellApart`).
- The cache searches with the name as given but stores it in lower case
  (`UpperCaseHidesAddresses`, `PushKeepsValidIff`).
- The byte count of `allocate` wraps (`SomeRequestWraps`, `AnswersRightIff`), and `blocks_before`
  has 31 bits (`BeforeIsFaithfulIff`).
- The sum of `would_block` wraps (`WouldBlockIsRightIff`, `TryHoldIsSafeIff`, `RunsAreSafeIff`).
- The front loop of the IPv6 parser takes any character as a separator (`AcceptedIff`).
- `await_ready` does not look at the queue (`SmallRequestOvertakes`, `OvertakesIffItFits`,
  `RunServesInOrderIff`).

## Model

| member | source | states |
|---|---|---|
| `HeapArith.BlocksNeededCoversRequest` | src/container/Allocator.cpp:163-165 | the block count covers header, request and alignment gap if and only if the byte count does not wrap around `size_t` |
| `HeapArith.AlignDiffIsWholeBlocks` | src/container/Allocator.cpp:25-33 | for a 16-aligned buffer and any power-of-two alignment, the alignment gap is a whole number of blocks |
| `HeapArith.BlocksNeededSplits` | src/container/Allocator.cpp:163-173 | without wrap-around the blocks needed are the skipped blocks plus one header and ceil(size/16) data blocks |
| `HeapArith.AlignRightDiffIsLeast` | src/container/Allocator.cpp:25-33 | the alignment gap reaches an aligned address and no shorter one does |
| `HeapArith.MaskGivesGap` | src/container/Allocator.cpp:25-29 | the masked sum and difference modulo 2^64 give that gap for every address, even where the sum wraps |
| `HeapModel.SetBlocksOwned` | src/container/Allocator.cpp:303-312 | changes one length and, if there is one, the successor's 31-bit back length; links and use flags stay |
| `HeapModel.BeforeIsFaithfulIff` | include/corosig/container/Allocator.hpp:54-63 | the 31-bit back length is the length set if and only if that has 31 bits |
| `HeapModel.UnlinkRemoves` | src/container/Allocator.cpp:373-412 | unlinking leaves one doubly linked list of exactly the other members in their order, the header loose, and no header outside the list touched |
| `HeapModel.PushInserts` | src/container/Allocator.cpp:331-371 | pushing adds the header at the front or at the back by its size and keeps the rest of the list and everything outside it |
| `HeapTiling.SplitTiles` | src/container/Allocator.cpp:174-204 | splitting a chunk keeps the headers tiling the buffer with right back lengths, one header more |
| `HeapTiling.MergeTiles` | src/container/Allocator.cpp:248-287 | merging a chunk with its successor keeps the tiling, one header less |
| `HeapTiling.WalkMeetsHeads` | src/container/Allocator.cpp:303-312 | the set of headers is no choice: it is exactly what the walk from block 0 by `blocks_owned` meets |
| `HeapTiling.OneChunkPerBlock` | src/container/Allocator.cpp:303-312 | every block belongs to at most one chunk |
| `HeapOps.ShapeSplitPrefix` | src/container/Allocator.cpp:174-189 | cutting off the alignment prefix keeps tiling and list, relists the prefix, and changes nothing but headers and this chunk |
| `HeapOps.ShapeCarve` | src/container/Allocator.cpp:191-211 | taking the front of a chunk and giving back its tail keeps tiling and list and touches no other chunk |
| `HeapOps.ShapeMergeIntoPrevious` | src/container/Allocator.cpp:248-264 | merging backward keeps tiling and list and takes the predecessor out of the list |
| `HeapOps.ShapeMergeNext` | src/container/Allocator.cpp:269-286 | merging forward keeps tiling and list and takes the successor out of the list |
| `HeapOps.ShapeRelease` | src/container/Allocator.cpp:289-295 | marking free and listing keeps tiling and list and every other chunk |
| `HeapList.WalkIsList` | src/container/Allocator.cpp:155-170 | the walk from `first` along the `next` links goes over exactly the free list and ends |
| `HeapList.FitsIffEnough` | src/container/Allocator.cpp:163-167 | the test of a chunk is whether its bytes are at least header, request and gap, counted modulo 2^64 |
| `HeapList.FirstFitIsFirst` | src/container/Allocator.cpp:155-170 | the search gives the first chunk along the links that has enough, all before it having too little, or finds that none has |
| `HeapList.AnswerIsFromFirst` | src/container/Allocator.cpp:152-223 | the answer is the address behind the header of that chunk, moved up to the next aligned address; null if none has enough |
| `HeapList.ListAfterAllocate` | src/container/Allocator.cpp:172-208 | the free list afterwards, element by element: the chunk has left it, then the skipped blocks and then the left-over blocks have joined it, each in front if it owns more than a quarter of the buffer and behind otherwise |
| `HeapList.ListAfterDeallocate` | src/container/Allocator.cpp:246-295 | the free list afterwards: the free neighbours have left it and the merged chunk has joined it by the same rule |
| `HeapAlloc.TakeKeepsWellFormed` | src/container/Allocator.cpp:172-211 | serving a request keeps the whole invariant: tiling, list equal to the free chunks, no two free neighbours, byte counter |
| `HeapFree.CoalesceEffect` | src/container/Allocator.cpp:246-287 | both merges together give one chunk that spans the freed one and its free neighbours and has no free neighbour itself |
| `HeapFree.DeallocateEffect` | src/container/Allocator.cpp:225-301 | returning a chunk frees exactly that range, keeps every other chunk, and takes its bytes off the counter |
| `HeapFree.DeallocateKeepsWellFormed` | src/container/Allocator.cpp:225-301 | returning a used chunk keeps the whole invariant |
| `HeapRuns.FailsIffNoPlacement` | src/container/Allocator.cpp:152-223 | the search fails if and only if no run of consecutive free blocks anywhere can hold the header and the data with the data address aligned |
| `HeapRuns.HeaderRecovered` | src/container/Allocator.cpp:318-324 | the header index computed from a returned pointer is the one it was allocated from |
| `HeapRuns.ResultIsAligned` | src/container/Allocator.cpp:213-220 | the result is aligned as asked and is the skipped chunk's data address |
| `HeapRuns.AllocateKeepsInv` | src/container/Allocator.cpp:152-223 | `allocate`, failing or not, keeps the invariant that ties the heap to the live allocations |
| `HeapRuns.DeallocateKeepsInv` | src/container/Allocator.cpp:225-301 | `deallocate` of any live pointer keeps it |
| `HeapRuns.WriteKeepsInv` | src/container/Allocator.cpp:213-220 | arbitrary writes of users into their own areas keep it |
| `HeapRuns.StepKeepsInv` | src/container/Allocator.cpp:152-301 | every operation keeps it |
| `HeapTheorems.FreshIsInv` | src/container/Allocator.cpp:98-132 | the constructor establishes it, whatever the buffer held and even if it has no block |
| `HeapTheorems.RunKeepsInv` | src/container/Allocator.cpp:152-301 | every run of any length keeps it |
| `HeapTheorems.LiveAreasAreDisjoint` | src/container/Allocator.cpp:152-223 | two live allocations are apart by at least a header and lie inside the buffer |
| `HeapTheorems.LiveAreaFits` | src/container/Allocator.cpp:163-213 | a live allocation is aligned, has the size asked for inside its chunk, and its header is recovered |
| `HeapTheorems.LivePointerIsInRange` | src/container/Allocator.cpp:230-233 | a live pointer of at least one byte passes the range assertion of `deallocate` |
| `HeapTheorems.StepKeepsArea` | src/container/Allocator.cpp:152-301 | no call and no other user's write changes what a live allocation holds |
| `HeapTheorems.RunKeepsArea` | src/container/Allocator.cpp:152-301 | over a whole run a live allocation keeps its contents, size and place until its own user writes or returns it |
| `HeapTheorems.PeakIsMostUsed` | src/container/Allocator.cpp:144-150 | `peak_memory` is the maximum of `current_memory` over the run |
| `HeapTheorems.UsedIsBounded` | src/container/Allocator.cpp:206-211 | `current_memory` is 16 times the blocks of the used chunks and at most the buffer size |
| `HeapTheorems.AllReturnedIsFresh` | src/container/Allocator.cpp:225-301 | once everything is returned the state is the freshly built one, apart from the peak and what users left behind |
| `HeapTheorems.ServedAgain` | src/container/Allocator.cpp:152-223 | so any request is then answered as a new allocator answers it, at the same address |
| `HeapWrap.AnswersRightIff` | src/container/Allocator.cpp:163-170 | for every size and every power-of-two alignment: the answer is null exactly when no placement exists, if and only if no free chunk is accepted by a byte count that wraps |
| `HeapWrap.SomeRequestWraps` | src/container/Allocator.cpp:163-170 | 2^64 - 16 bytes are served from a new buffer of one block |
| `AllocatorClass.Allocator.constructor` | src/container/Allocator.cpp:98-132 | trims the buffer to whole aligned blocks and builds the fresh state |
| `AllocatorClass.Allocator.SetBlocksOwned` | src/container/Allocator.cpp:303-312 | in place, as the specification |
| `AllocatorClass.Allocator.PushFreeNode` | src/container/Allocator.cpp:331-371 | in place, as the specification |
| `AllocatorClass.Allocator.UnlinkFreeNode` | src/container/Allocator.cpp:373-412 | in place, as the specification |
| `AllocatorClass.Allocator.CutPrefix` | src/container/Allocator.cpp:174-189 | in place, as the specification |
| `AllocatorClass.Allocator.TakeFront` | src/container/Allocator.cpp:191-209 | in place, as the specification, with the byte counters |
| `AllocatorClass.Allocator.TakeFrontBlocks` | src/container/Allocator.cpp:191-205 | in place, as the specification |
| `AllocatorClass.Allocator.GetMetadataIdxFromAddr` | src/container/Allocator.cpp:318-324 | the header index of an address |
| `AllocatorClass.Allocator.FindFit` | src/container/Allocator.cpp:155-170 | the loop over next links finds the first chunk along them that has enough, or that none has |
| `AllocatorClass.Allocator.Allocate` | src/container/Allocator.cpp:152-223 | keeps `Valid`, makes exactly the step of the run model, serves from the first chunk along the links that has enough, and returns null if and only if no placement exists |
| `AllocatorClass.Allocator.TakeInPlace` | src/container/Allocator.cpp:172-211 | in place, as the specification of taking `need` blocks behind `skip` |
| `AllocatorClass.Allocator.Deallocate` | src/container/Allocator.cpp:225-301 | keeps `Valid` and makes exactly the step of the run model; null does nothing |
| `AllocatorClass.Allocator.JoinPrevious` | src/container/Allocator.cpp:248-264 | in place, as the specification |
| `AllocatorClass.Allocator.JoinBackward` | src/container/Allocator.cpp:248-264 | merges backward exactly when the predecessor is free |
| `AllocatorClass.Allocator.JoinNext` | src/container/Allocator.cpp:269-286 | in place, as the specification |
| `AllocatorClass.Allocator.ListAsFree` | src/container/Allocator.cpp:289-295 | in place, as the specification |
| `AllocatorClass.Allocator.Return` | src/container/Allocator.cpp:235-295 | in place, as the specification once the header is known |
| `AllocatorClass.Allocator.JoinNeighbours` | src/container/Allocator.cpp:246-287 | in place, as the specification of both merges |
| `DnsParser.ReadNtoh16` | src/io/dns/Protocol.cpp:30-38 | of two octets the first is the value's quotient by 256 and the second its remainder |
| `DnsParser.DecodeCompressionPtr` | src/io/dns/Protocol.cpp:46-61 | a pointer is seen if and only if two octets are there and the first is at least 0xC0; its offset has that octet less 0xC0 as quotient by 256 and the next octet as remainder |
| `DnsParser.DecodeLabel` | src/io/dns/Protocol.cpp:63-80 | exactly when a label is accepted, which one, and which error an empty span, a length above 63 and a length past the end give |
| `DnsParser.ParseDomainName` | src/io/dns/Protocol.cpp:130-181 | the nested loops compute what the step relation reaches, whenever that stops |
| `DnsTermination.Terminates` | src/io/dns/Protocol.cpp:133-178 | if the pointers a call meets form no cycle it comes to an answer, and not by its loop check: by the measure (255 minus octets so far, rank of the position) |
| `DnsTermination.BackwardTerminates` | src/io/dns/Protocol.cpp:133-178 | in particular when every pointer the call meets leads strictly backward (section 4.1.4 of RFC 1035), in every span of every message |
| `DnsTermination.SettlesIffAcyclic` | src/io/dns/Protocol.cpp:133-178 | a call comes to an answer other than the loop check's report if and only if the pointers it meets form no cycle |
| `DnsTermination.EndlessChainIsFollowedIff` | src/io/dns/Protocol.cpp:138-151 | from any state of the loops that stands on an endless pointer chain: it is followed for ever if and only if no target is what the loop check remembers; otherwise the check's report is the answer |
| `DnsTermination.CallOnChainIsFollowedIff` | src/io/dns/Protocol.cpp:138-151 | a call that starts on such a chain goes on for ever if and only if the chain never returns to its first target |
| `DnsTermination.GoesOnForeverIff` | src/io/dns/Protocol.cpp:133-178 | any call on any message goes on for ever if and only if, after some labels and pointers, it stands on an endless pointer chain none of whose targets the loop check remembers |
| `DnsTermination.StopsIffSoon` | src/io/dns/Protocol.cpp:133-178 | a call that stops at all stops within 256 (n + 2) steps on a message of n octets |
| `DnsTermination.SomeMessageDiverges` | src/io/dns/Protocol.cpp:138-151 | a message of six octets on which a call goes on for ever |
| `DnsParser.ConsumedIsOnWire` | src/io/dns/Protocol.cpp:136-167 | the count of octets to consume is the length up to the root label or first pointer if and only if that is at most 255; the only other accepted length is 256 |
| `DnsParser.SomeNameConsumesNothing` | src/io/dns/Protocol.cpp:136-167 | such a name |
| `DnsParser.IteratorYieldsParsedLabels` | src/io/dns/Protocol.cpp:586-624 | whatever the parser accepted, in a sub-span or not, the unchecked iterator stops and yields the same labels, each of 1 to 63 octets inside the message and at most 255 octets in all, whatever lies behind the message |
| `DnsParser.LabelsIterator.constructor` | src/io/dns/Protocol.cpp:586-590 | a new iterator has all labels to come |
| `DnsParser.LabelsIterator.Advance` | src/io/dns/Protocol.cpp:597-605 | following pointers comes to the label that is to be yielded next |
| `DnsParser.LabelsIterator.Current` | src/io/dns/Protocol.cpp:592-595 | the current label is the first of those still to come |
| `DnsParser.LabelsIterator.Next` | src/io/dns/Protocol.cpp:607-614 | one step drops exactly the first of them |
| `DnsParser.CollectLabels` | src/io/dns/Protocol.cpp:586-624 | iterating to the end yields exactly the labels |
| `DnsNames.DenotesIsUnique` | src/io/dns/Protocol.cpp:130-181 | a place in a message spells one name only |
| `DnsNames.SpellsOnce` | src/io/dns/Protocol.cpp:130-181 | a place spells one name only, in one number of moves, so the loop check never stops a name that has an end |
| `DnsNames.DenotedIsSpelled` | src/io/dns/Protocol.cpp:130-181 | the encoder's form, with pointers back to labels, is a special case |
| `DnsNames.ParserReads` | src/io/dns/Protocol.cpp:130-181 | a name spelled through any pointers, forward or backward, is accepted with exactly its labels if it has at most 255 octets and is rejected as too long otherwise, from every state of the loop and in every span |
| `DnsNames.DenotedNameParses` | src/io/dns/Protocol.cpp:130-181 | in particular names in the form the encoder writes |
| `DnsNames.ParsesToExcludesTooLong` | src/io/dns/Protocol.cpp:130-181 | a name is not both accepted and rejected as too long |
| `DnsNames.AcceptsIffSpelled` | src/io/dns/Protocol.cpp:130-181 | on every message and every span of it the parser accepts a name with certain labels if and only if the octets, read by themselves, spell them through whatever pointers, and they take at most 255 octets |
| `DnsNames.RejectedIff` | src/io/dns/Protocol.cpp:130-181 | a call is rejected with an error if and only if it comes to a state whose octets are the reason for that error |
| `DnsNames.AcceptedIsSpelled` | src/io/dns/Protocol.cpp:130-181 | whatever the parser accepted is spelled there |
| `CompressionMap.FindIsFirst` | include/corosig/io/dns/Protocol.hpp:502-505 | search in the sorted vector hits if and only if the string is there and gives its first offset |
| `CompressionMap.SortedMeans` | include/corosig/io/dns/Protocol.hpp:481-484 | nodes stand by hash and those of one hash by string |
| `Lex.LessMeans` | include/corosig/io/dns/Protocol.hpp:481-484 | strings compare by the first octet that differs, and a string comes before its continuations |
| `CompressionMap.FindAfterInsert` | include/corosig/io/dns/Protocol.hpp:481-505 | insertion keeps the order by (hash, string) and changes the answer for the new string only, and only if it was absent |
| `CompressionMap.MapIsAssociationList` | include/corosig/io/dns/Protocol.hpp:466-508 | for every hash function and every sequence of insertions the map answers as a plain association list |
| `CompressionMap.Map.SearchLower` | include/corosig/io/dns/Protocol.hpp:502-505 | the halving search, which relies on the order, finds the first node that is not less |
| `CompressionMap.Map.SearchUpper` | include/corosig/io/dns/Protocol.hpp:497-500 | the halving search finds the first node that is greater |
| `CompressionMap.Map.InsertNode` | include/corosig/io/dns/Protocol.hpp:497-500 | inserts into the vector in place; without memory nothing changes |
| `CompressionMap.Map.FindOffset` | include/corosig/io/dns/Protocol.hpp:502-505 | the search answers as the specification |
| `VectorModel.Vector.Reserve` | include/corosig/container/Vector.hpp:136-150 | keeps the contents, makes room or fails without change |
| `VectorModel.Vector.MoveUp` | include/corosig/container/Vector.hpp:261-264 | moves a suffix up without losing an element |
| `VectorModel.Vector.InsertRange` | include/corosig/container/Vector.hpp:244-272 | the new contents are prefix, inserted range, suffix; a failed call changes nothing |
| `DnsCompression.LabelsMakeName` | include/corosig/io/dns/Protocol.hpp:298-305 | the labels, none of which has a dot, with dots between them are the name without its one trailing dot |
| `DnsEncoder.NameWireLength` | include/corosig/io/dns/Protocol.hpp:298-305 | the labels take as many octets as the name plus two, or one for the root |
| `DnsEncoder.WriteHton16` | include/corosig/io/dns/Protocol.hpp:430-435 | the quotient by 256 is written first, then the remainder |
| `DnsEncoder.EncodeCompressionPtr` | include/corosig/io/dns/Protocol.hpp:458-464 | 0xC0 plus the offset's quotient, then its remainder |
| `DnsEncoder.EncodeMeans` | include/corosig/io/dns/Protocol.hpp:564-624 | one run of the label loop: old output stays, the name is spelled at its start, everything new in the map leads to what its string says |
| `DnsEncoder.EncodeNameMeans` | include/corosig/io/dns/Protocol.hpp:604-624 | a whole call keeps the map sound and spells the name |
| `DnsCompression.EncodeIsExact` | include/corosig/io/dns/Protocol.hpp:564-624 | exactly what is written and remembered, for any map: labels up to the end, or up to the first rest that is in the map, for which a pointer is written, or up to the first bad label, which is reported; afterwards the map answers for exactly the rests written at an offset of at most 0x3FFF with memory granted, and otherwise as before |
| `DnsCompression.EncodeNameIsExact` | include/corosig/io/dns/Protocol.hpp:604-624 | the same for a whole name, which is refused first if it has more than 255 octets |
| `DnsCompression.SecondTimeIsPointer` | include/corosig/io/dns/Protocol.hpp:564-602 | a name remembered at an offset of at most 0x3FFF is written, wherever it comes again, as two octets that point there |
| `DnsEncoder.WrittenNameDenotes` | include/corosig/io/dns/Protocol.hpp:564-624 | in any message of names and other octets written with one map, each name is spelled at its start, every pointer leading to a label at a strictly smaller offset |
| `DnsEncoder.WrittenNameParses` | include/corosig/io/dns/Protocol.hpp:564-624 | the parser reads each name back exactly if and only if its dot-stripped length is at most 253, and rejects it as too long otherwise |
| `DnsEncoder.WrittenNameIterates` | src/io/dns/Protocol.cpp:586-624 | the unchecked iterator reads it back too |
| `DnsEncoder.EncodePlain` | include/corosig/io/dns/Protocol.hpp:564-624 | a name never points into itself, and fails with the error of its first bad label |
| `DnsEncoder.FirstError` | include/corosig/io/dns/Protocol.hpp:570-575 | none if all labels have 1 to 63 octets, and otherwise the error of the first bad one |
| `DnsEncoder.SingleNameIsPlain` | include/corosig/io/dns/Protocol.hpp:604-624 | a first name is accepted if and only if it has at most 255 octets and labels of 1 to 63, with which error it is refused otherwise, and that it is written without a pointer |
| `DnsQuestion.MessageWriter.EncodeName` | include/corosig/io/dns/Protocol.hpp:564-624 | the loop writes and remembers as the specification says; a failed call has only appended |
| `DnsQuestion.MessageWriter.WriteQuestion` | include/corosig/io/dns/Protocol.hpp:658-682 | the message is the specified one, with id, flags, counts, type and class in their octets, or the specified error |
| `DnsQuestion.QuestionIsOctets` | include/corosig/io/dns/Protocol.hpp:658-682 | octet by octet: the id, opcode and recursion bit with all other flags zero, one question and no other records, type and class at the end |
| `DnsQuestion.EncodeHeader` | include/corosig/io/dns/Protocol.hpp:437-446 | each of the six fields stands in its two octets |
| `DnsQuestion.DecodeHeader` | src/io/dns/Protocol.cpp:420-439 | each of the six fields is what its two octets say; fewer than twelve octets are an error |
| `DnsQuestion.DecodeEntry` | src/io/dns/Protocol.cpp:441-468 | type and class are the low octets behind the name; which error missing octets give |
| `DnsQuestion.FlagBits` | src/io/dns/Protocol.cpp:82-103 | the getters read bits 11 to 14 and bit 8 of any flags word |
| `DnsQuestion.FlagsRoundTrip` | include/corosig/io/dns/Protocol.hpp:658-682 | opcode and recursion bit are read back from the flags |
| `DnsQuestion.HeaderRoundTrip` | src/io/dns/Protocol.cpp:420-439 | a written header is read back, whatever follows it |
| `DnsQuestion.EntryRoundTrip` | src/io/dns/Protocol.cpp:441-468 | a plainly written entry is read back behind any octets, to the last octet |
| `DnsQuestion.QuestionRoundTrip` | include/corosig/io/dns/Protocol.hpp:658-682 | id, opcode, recursion bit and no other flag, one question and no other records, labels, type and class of a question are read back with nothing left over |
| `DnsQuestion.QuestionReadsBackIff` | include/corosig/io/dns/Protocol.hpp:658-682 | an accepted question is read back if and only if its dot-stripped name has at most 253 octets |
| `DnsQuestion.LongQuestionIsNotReadBack` | include/corosig/io/dns/Protocol.hpp:604-624 | a name of 254 octets in labels of 63, 63, 63 and 62 is written and then rejected as too long |
| `DnsQuestion.QuestionFitsBuffer` | src/io/dns/Resolver.cpp:164-167 | exactly which questions are accepted; each takes at most 273 octets and so fits 512 |
| `DnsQuestion.ResponseDecoder.ConsumeHeader` | src/io/dns/Protocol.cpp:420-439 | twelve octets are consumed, or none and an error |
| `DnsQuestion.ResponseDecoder.ConsumeQuestionEntry` | src/io/dns/Protocol.cpp:441-468 | the entry at the cursor is consumed; a failure empties the decoder |
| `ReactorPoll.KeepFilters` | src/reactor/Reactor.cpp:149-189 | unlinking is by identity and keeps the order of the others |
| `ReactorPoll.PassConserves` | src/reactor/Reactor.cpp:149-189 | whatever the coroutines do and whatever the handles, old plus added nodes are the resumed, the unlinked and the queued ones |
| `ReactorPoll.PassFollowsTurns` | src/reactor/Reactor.cpp:149-189 | with handles that tell nodes apart the pass goes turn by turn over the snapshot |
| `ReactorPoll.PassIsExact` | src/reactor/Reactor.cpp:149-189 | then exactly the nodes whose own pollfd reported events and that are linked at their turn are resumed, each once, in order |
| `ReactorPoll.SharedHandleMisleads` | src/reactor/Reactor.cpp:149-189 | for every list where a snapshot node other than the first shares its handle with a later node, a poll result and a coroutine that make the pass wrong |
| `ReactorPoll.ExactIffHandlesTellApart` | src/reactor/Reactor.cpp:149-189 | the pass is right for all poll results and coroutines if and only if handles tell the nodes apart |
| `ReactorPoll.Reactor.SnapshotNormal` | src/reactor/Reactor.cpp:96-124 | the snapshot is the longest prefix of the list for each entry of which there was memory |
| `ReactorPoll.Reactor.SnapshotFallback` | src/reactor/Reactor.cpp:126-147 | the snapshot is the prefix that fits the fallback buffer |
| `ReactorPoll.Reactor.PollAndResume` | src/reactor/Reactor.cpp:149-189 | the loop with its splice is the specified pass; a failed poll changes nothing |
| `SemaphoreModel.WouldBlockIsRightIff` | src/Semaphore.cpp:66-69 | the test tells whether the units fit if and only if the sum does not wrap |
| `SemaphoreModel.WakeKeeps` | src/Semaphore.cpp:98-108 | the wake-up loop restores the invariant after units came back |
| `SemaphoreModel.WakeMoves` | src/Semaphore.cpp:98-108 | it grants a prefix of the queue, in order, and nothing else |
| `SemaphoreModel.StepKeepsInv` | src/Semaphore.cpp:22-108 | every operation keeps: units in use are those of holders and granted waiters, at most the maximum; grants in suspension order; the front waiter does not fit |
| `SemaphoreModel.RunsAreSafeIff` | src/Semaphore.cpp:22-108 | every run from the start is safe if and only if twice the maximum is below 2^64; otherwise `hold(max)` and `hold(2^64 - max)` leave zero units in use |
| `SemaphoreModel.TryHoldIsSafeIff` | src/Semaphore.cpp:79-85 | `try_hold` keeps the books right if and only if the sum does not wrap |
| `SemaphoreModel.QueueMeansUse` | src/Semaphore.cpp:66-108 | a waiting queue means units in use and someone who will give them back |
| `SemaphoreModel.DrainIsFinite` | src/Semaphore.cpp:87-108 | without new holds every run of resumes and releases is at most as long as what was outstanding |
| `SemaphoreModel.DrainEndsIdle` | src/Semaphore.cpp:87-108 | where it cannot go on, the queue is empty and no units are in use |
| `SemaphoreModel.DrainExists` | src/Semaphore.cpp:87-108 | from every reachable state there is such a run |
| `SemaphoreModel.OvertakesIffItFits` | src/Semaphore.cpp:39-85 | while others wait, a request goes on at once if and only if it fits, and then it is smaller than the one at the front |
| `SemaphoreModel.ServedInOrderIff` | src/Semaphore.cpp:39-108 | from every state in which order was kept, over every run, units are given in order of arrival if and only if no request of the run overtakes |
| `SemaphoreModel.RunServesInOrderIff` | src/Semaphore.cpp:39-108 | in particular over every run from the start |
| `SemaphoreModel.SmallRequestOvertakes` | src/Semaphore.cpp:39-45 | a run from the start in which a small request is served before a larger one that was suspended earlier |
| `SemaphoreModel.Semaphore.constructor` | src/Semaphore.cpp:56-59 | the initial state of the run model |
| `SemaphoreModel.Semaphore.TryHold` | src/Semaphore.cpp:79-85 | succeeds if and only if the test says so, and takes the units modulo 2^64 |
| `SemaphoreModel.Semaphore.Hold` | src/Semaphore.cpp:39-54 | goes on at once or queues at the back, as the run model |
| `SemaphoreModel.Semaphore.GiveUnits` | src/Semaphore.cpp:98-108 | the loop is the specified wake-up |
| `SemaphoreModel.Semaphore.Reset` | src/Semaphore.cpp:22-28 | a holder gives back its units as the run model; one of no units does nothing |
| `SemaphoreModel.Semaphore.ResumeNext` | src/Semaphore.cpp:35-54 | the first scheduled waiter becomes a holder |
| `CacheAnswers.StoredAsOneIff` | include/corosig/io/dns/ACache.hpp:14-19 | two names are stored and searched as one if and only if they differ in the case of letters only |
| `CacheAnswers.PullAnswers` | src/io/dns/MemoryCache.cpp:67-114 | the answer consists of the first entries, at most as many as there is room for and in their order, that were pushed under a name equal but for letter case, are of the family and expire later than now |
| `CacheAnswers.PullIgnoresCase` | src/io/dns/MemoryCache.cpp:67-114 | names that differ in letter case only get the same answer, whatever the cache holds |
| `CacheAnswers.OtherNamesShareNothing` | src/io/dns/MemoryCache.cpp:67-114 | names that differ otherwise share no record |
| `CacheNames.PushKeepsValidIff` | include/corosig/io/dns/MemoryCache.hpp:286-359 | a push of any name keeps each record once in the expiry index and once in the ordered list of its own name, if and only if no stored name lies between the name as given and its lower-case form |
| `CacheNames.PushKeepsAgreement` | include/corosig/io/dns/MemoryCache.hpp:286-359 | and then it puts its entries in front of the flat list |
| `CacheRuns.PushAddsItsAddresses` | include/corosig/io/dns/MemoryCache.hpp:305-352 | a push adds exactly its unexpired addresses, with their expiry times, the latest first |
| `CacheRuns.OneRecordPerExpiry` | include/corosig/io/dns/MemoryCache.hpp:333-352 | one record for each expiry time, none without an address |
| `CacheRuns.PruneKeepsValid` | include/corosig/io/dns/MemoryCache.hpp:263-278 | a prune keeps both indexes consistent |
| `CacheRuns.PruneKeepsAgreement` | include/corosig/io/dns/MemoryCache.hpp:263-278 | a prune drops the expired entries of the flat list and nothing else |
| `CacheRuns.PruneDropsExpired` | include/corosig/io/dns/MemoryCache.hpp:263-278 | exactly the records that expire now or earlier leave the expiry index |
| `CacheRuns.PruneKeepsNameIff` | include/corosig/io/dns/MemoryCache.hpp:263-278 | a name stays if and only if it has an unexpired record left or never had one |
| `CacheRuns.PruneIsInvisible` | include/corosig/io/dns/MemoryCache.hpp:263-278 | no pull at that time or later can tell whether the cache was pruned |
| `CacheRuns.RunAgreesIff` | include/corosig/io/dns/MemoryCache.hpp:263-359 | over every run of pushes, failed pushes and prunes the indexes are consistent throughout if and only if every push finds its place, and then every pull answers, as above, from what was pushed and has not been pruned |
| `CacheNames.OrderedIffNothingBetween` | include/corosig/io/dns/MemoryCache.hpp:286-308 | making a node for a name keeps the index ordered if and only if the name is in lower case or nothing stored lies between it and its lower-case form |
| `CacheNames.SamePush` | include/corosig/io/dns/MemoryCache.hpp:286-359 | and then the push is the push of the lower-case name |
| `CacheNames.UpperCaseHidesAddresses` | include/corosig/io/dns/MemoryCache.hpp:286-308 | two pushes after which the first addresses are found no more |
| `MemoryCacheClass.MemoryCache.Push` | include/corosig/io/dns/MemoryCache.hpp:286-359 | the specified push, or, wherever an allocation fails, both indexes and the number of chunks as they were |
| `MemoryCacheClass.MemoryCache.FillNode` | include/corosig/io/dns/MemoryCache.hpp:305-359 | records, lists and index filled, or all undone with the node made for the call |
| `MemoryCacheClass.MemoryCache.FileRecords` | include/corosig/io/dns/MemoryCache.hpp:333-352 | one record for each run of equal expiry, pushed to the front of the name's list |
| `MemoryCacheClass.MemoryCache.GiveUp` | include/corosig/io/dns/MemoryCache.hpp:320-331 | the destructors take every record out of its list again and return every chunk |
| `MemoryCacheClass.MemoryCache.Transfer` | include/corosig/io/dns/MemoryCache.hpp:354-355 | the records move into the index by expiry |
| `MemoryCacheClass.MemoryCache.Pull` | src/io/dns/MemoryCache.cpp:67-114 | the nested copying loops give the specified answer |
| `MemoryCacheClass.MemoryCache.Prune` | include/corosig/io/dns/MemoryCache.hpp:263-278 | taking expired records off the front one by one gives the specified state |
| `Ipv6Text.DigitsAreRead` | src/io/Sockaddr.cpp:24-35 | each character is read as its position in "0123456789abcdef" or "0123456789ABCDEF", and any other is no digit |
| `Ipv6Grammar.GroupIsReadIff` | src/io/Sockaddr.cpp:42-57 | a group is read exactly when one to four digits, as many as there are, stand there, and as the number they spell |
| `Ipv6Grammar.AcceptedIff` | src/io/Sockaddr.cpp:236-284 | exactly which texts are accepted and as which address: eight groups with any single characters between them and at most one behind, or groups so separated, "::", and groups with colons between them and at most one behind, fewer than eight together |
| `Ipv6Text.FullFormParses` | src/io/Sockaddr.cpp:236-284 | in particular eight groups of 1 to 4 hexadecimal digits of either case with colons between them are read as exactly those values |
| `Ipv6Text.CompressedFormParses` | src/io/Sockaddr.cpp:236-284 | "::" for any run of one or more zero groups, anywhere, is read as exactly that address |
| `Ipv6Text.OctetsSpellGroups` | src/io/Sockaddr.cpp:170-177 | the sixteen octets spell the groups, high octet first |
| `Ipv6Text.ReadFront` | src/io/Sockaddr.cpp:65-99 | the front loop fills the buffer as specified |
| `Ipv6Text.ReadBack` | src/io/Sockaddr.cpp:245-266 | the back loop fills the rest and leaves the front |
| `Ipv6Text.ShiftRight` | src/io/Sockaddr.cpp:268-272 | moves the back groups to the end in place |
| `Ipv6Text.ReadAddress` | src/io/Sockaddr.cpp:236-284 | shifting and filling in place gives the specified address or rejects as specified |
| `RandomStream.AdvanceCarries` | src/Random.cpp:95-97 | the counter is a 64-bit one in two words, and no other word changes |
| `RandomStream.RefillFeedsBack` | src/Random.cpp:74-100 | the block of the state is given out next and is the next state, but for the counter |
| `RandomVector.FirstBlockMeetsTestVector` | src/Random.cpp:19-100 | the first block is that of the test vector in section 2.3.2 of RFC 7539 |
| `RandomVector.OctetsMakeWord` | src/Random.cpp:89-93 | the octets of a block are those of its words, the lowest first |
| `RandomStream.StreamSplits` | src/Random.cpp:59-72 | the byte stream has no seams |
| `RandomStream.ChunkingIsInvisible` | src/Random.cpp:59-72 | any sequence of requests gives the bytes and the final state of one request of the total length |
| `RandomStream.ChaCha20RandomGenerator.constructor` | src/Random.cpp:45-57 | the initial words, with nothing buffered |
| `RandomStream.ChaCha20RandomGenerator.QuarterRoundAt` | src/Random.cpp:19-32 | in place, as the specification |
| `RandomStream.ChaCha20RandomGenerator.RefillState` | src/Random.cpp:74-100 | rounds, addition and feedback in place give the specified next block |
| `RandomStream.ChaCha20RandomGenerator.AddState` | src/Random.cpp:89-93 | each word gets the input word added and is fed back |
| `RandomStream.ChaCha20RandomGenerator.GenerateBytes` | src/Random.cpp:59-72 | the copy loop gives the next bytes of the stream; the position stays within 0..64 |

## Left out

- HeapRuns.FailsIffNoPlacement: assumes a power-of-two alignment, as the source asserts, and that the byte count does not wrap (`HeapWrap.AnswersRightIff` is the statement without that); the invariant has at most 2^31 blocks, since `blocks_before` has 31 bits (`BeforeIsFaithfulIff`), where the source asserts only fewer than 2^32 - 1.
- HeapTheorems.LivePointerIsInRange: zero-size allocations are modelled, but one may be the end pointer, which the assertion in line 230 rejects; returning it is then not a legal operation.
- Memory-poisoning guards of the allocator and its destructor's leak assertion are not modelled.
- DnsParser.ParseDomainName: carries a ghost number of steps within which it stops, since the loops need not stop on every message; `GoesOnForeverIff` and `StopsIffSoon` say exactly when they do.
- DnsQuestion.MessageWriter.EncodeName: on failure says only that output was appended; the map may then hold entries for the abandoned name, as in the source, whose callers drop the message.
- DnsQuestion.MessageWriter.EncodeName: keeps its map as a sequence field; `CompressionMap.Map` refines the same functions down to the vector.
- RDATA dispatch and resource records other than their names: straight-line field reads.
- VectorModel.Vector.InsertRange: an empty range at position 0 is excluded, because the unsigned countdown of the source has no lower bound there; element destructors and `erase` are not modelled.
- ReactorPoll.Reactor.PollAndResume: a resume is one arbitrary step that unlinks and adds nodes; nested event loops and the ready and sleeping lists are not modelled.
- SemaphoreModel.RunsAreSafeIff: runs in which an awaiter is destroyed while queued or between grant and resume are not modelled, a `try_hold` whose sum would wrap is left out of runs (`TryHoldIsSafeIff` says what it does), and freedom from starvation is not claimed.
- CacheRuns.RunAgreesIff: what pulls answer after a push that did not find its place depends on the shape of the tree and is not modelled beyond `UpperCaseHidesAddresses`. The reference from a record to its name's node is the stored name, which is unique; the balanced trees are sorted sequences; the sort gives any ascending permutation.
- Ipv6Grammar.AcceptedIff: IPv4-mapped text is not modelled.
- RandomStream.ChunkingIsInvisible: the stream is the code's own, which feeds each block back into the state; it is not the counter-mode stream of section 2.4 of RFC 7539.
- Sockets, files, pipes, clocks, signals, the hosts file, the resolver's request handling, the event loop, `Promise`, `Fut`, `Result` and `Variant`: system plumbing, coroutine lifetimes and type-level code.
