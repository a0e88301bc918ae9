# Verification of the stateful cores of LADI/spa

Dafny models of the parts of the repository in which state, concurrency or index arithmetic make correctness hard to
see, with proofs for every input, every run or every interleaving. `dafny verify dfyconfig.toml` checks all of it.

| files | what they model |
|---|---|
| `Common`, `Modular`, `Bits` | shared types, positions and cells of a ring, the power-of-two mask |
| `RingIndex`, `RingBuffer` | the JACK ring buffer as one thread sees it: its space arithmetic and the object |
| `RingProtocol`, `RingSteps`, `RingRuns`, `RingViews`, `RingCalls` | one reader and one writer of that ring interleaved load by load, byte by byte and store by store: the steps and the invariant, what each step keeps, what every run satisfies, what the threads know of the space, what their calls return and how long they take |
| `SListOrder`, `SListHeap`, `SList` | the JACK list on the heap: search, append, removal, copy and the in-place merge sort |
| `FileRefs`, `OpenRaces`, `FdMaps`, `FdTable` | the V4L2 shim's reference-counted files and the sharing of one file per device, under any number of threads, and once more call by call with the kernel's descriptors |
| `ParamSync` | the shim's copy of a node's parameters: announcements, replies with generation numbers, commits on sync |
| `Formats` | format conversion against a table, and the choice of a format |
| `Streaming` | buffer announcement, queueing, dequeueing, stream on and off, and the index part of mmap |
| `PcmFrames`, `PcmPlayback`, `Seqlock` | the ALSA plugin: the playback callback with its ring offset, silence, xrun and drain logic, and the sequence counter between callback and delay query |
| `Metadata`, `MetadataStrings`, `Descriptors`, `MetadataStore` | the JACK metadata store against a map of maps, the ownership of its strings, and the code on its arrays |
| `JsonString` | the JSON string printer against a decoder of section 7 of RFC 8259 |

Loops and in-place updates of the source are methods with loops, classes with fields and, for the list, linked heap
nodes; each is proved against a function or an invariant, and the laws are lemmas about those. Protocols between
threads are step systems whose runs are sequences of states or of actions. History variables (`accepted`, `committed`,
`log`, `calls`, `snapshots`) record what happened and are read by no step.

Results that differ from what one would expect of the code:

- **Metadata, removal of a property.** The tail of the array is moved to the start of the array instead of to the
  removed entry. From agreement with the map, an update keeps agreement if and only if it does not remove a property
  that has neighbours on both sides (`UpdateAgreesIff`); such a removal always loses the first property
  (`InteriorLosesFirst`). `SurvivesIff`, `DeletedStaysVisibleIff` and `VisibleTwiceIff` say exactly which properties stay,
  when the removed one does, and which ones are there twice.
- **Metadata, strings.** The move copies pointers. From a state in which every string has one owner or has been freed
  once, an update leads to such a state under exactly the same condition (`UpdateSoundIff`); deleting the description
  after an interior removal frees some string a second time (`InteriorFreesTwice`).
- **V4L2 shim, sharing between opens.** openat looks the device up and enters its new file in two steps. As long as no
  open finds the device without a file while another thread is about to enter one, all descriptors of a device share one
  file (`CalmOpensShare`); from every state in which an open does, a run leads to two (`RacingOpensMayNotShare`,
  `TwoOpensMayNotShare`).
- **Ring buffer, `reset_size`.** The argument is not rounded. There is nothing to read afterwards, as the interface
  promises, exactly when it is a power of two; otherwise `size & (size - 1)` bytes appear to be there
  (`FreshReadSpaceIff`), and publishing some number of bytes moves the pointer by another (`FreshAdvanceIff`). At size 3,
  two bytes appear and the first published byte is lost (`SizeThreeMisbehaves`).
- **List sort.** Ties are taken from the right half, so the sort is a stable sort of the reversed list and not a stable
  sort (`SortIsStableSortOfReversal`).
- **Format conversion.** A raw format of 0 matches every raw row. The shim's table begins with a raw row of format 0
  (RGB332, pipewire-v4l2.c:960), so an info always comes back whole (`InfoIsRestored`), but every other raw code without
  a format of its own (ARGB555, RGB565X, NV42, ...) turns into RGB332 (`UnknownCodesCollapse`).
- **Playback, fallback boundary.** If the sw params cannot be read, the boundary becomes the buffer size
  (pcm_pipewire.c:532), and only the hardware pointer is reduced by it. The two pointers then tell how many frames are
  ready exactly while the consumer is in the first buffer size of alsa-lib's own boundary (`FallbackTellsIff`). If both
  were reduced by the buffer size, an empty ring and a full one would look the same (`DeterminedIff`).
- **mmap.** Offset and length of a queried buffer select that buffer exactly when its length is the current, non-zero
  buffer size and the 32-bit offset did not wrap (`MmapSelectsTheQueriedBuffer`). The index is not compared with the
  number of buffers: every multiple of the size is accepted (`MmapReachesPastTheEnd`).
- **Sequence counter.** Less than one wrap of the counter during one query is needed, 2^64 or 2^32 increments depending
  on the width of a pointer, and one wrap is too many (`SuccessfulReadsAreSnapshots`, `WrapAdmitsTornRead`).
- **JSON strings.** A NUL byte is printed raw, so a conforming decoder returns the bytes exactly when none is NUL
  (`RoundTripIff`).

## Model

| member | source | states |
|---|---|---|
| Bits.MaskIsModIff | pipewire-jack/src/ringbuffer.c:26-30 | index & (size - 1) is index modulo size for every index if and only if size is a power of two |
| Bits.MaskKeepsIndicesIff | pipewire-jack/src/ringbuffer.c:220-226 | the mask leaves every index below the size alone if and only if the size is a power of two |
| RingIndex.SpacesAddUp | pipewire-jack/src/ringbuffer.c:187-198 | the masked difference is the fill level, and read space plus write space is size - 1 |
| RingIndex.SpacesFromPositions | pipewire-jack/src/ringbuffer.c:269-282 | from the wrapped pointers of any two history positions less than a lap apart, both spaces are the true ones |
| RingIndex.SplitFits | pipewire-jack/src/ringbuffer.c:124-132 | the two memcpy parts stay in the buffer, add up to the count, and the second one starts a new lap |
| RingIndex.FreshReadSpaceIff | pipewire-jack/src/ringbuffer.c:187-198 | with both pointers at 0 the read space is size & (size - 1), which is 0 if and only if the size is a power of two |
| RingIndex.FreshAdvanceIff | pipewire-jack/src/ringbuffer.c:262-266 | from cell 0, advancing by every n below the size arrives at cell n if and only if the size is a power of two |
| RingIndex.SizeThreeMisbehaves | pipewire-jack/src/ringbuffer.c:220-226 | at size 3 an empty ring has two bytes to read, and a published byte moves no pointer |
| RingRuns.FifoSafety | pipewire-jack/src/ringbuffer.c:113-142 | in every state of every interleaving, accepted bytes are delivered bytes followed by what memory and pointers hold, half-published wraps included, and one cell stays free |
| RingRuns.StepRefinesFifo | pipewire-jack/src/ringbuffer.c:229-259 | every step pushes onto, pops from or leaves alone a bounded FIFO queue whose state is the memory contents |
| RingRuns.HistoriesGrow | pipewire-jack/jack/ringbuffer.h:36-42 | along every run no accepted or delivered byte is taken back or altered |
| RingCalls.CallsReturnTheHistory | pipewire-jack/src/ringbuffer.c:113-177 | write has taken the first n bytes of its source, read and peek return the accepted history at their start, where the count is the minimum of what was asked for and the space the call found; a read vector spells out accepted history; whatever the other thread did meanwhile |
| RingCalls.CountsFollowTheViews | pipewire-jack/src/ringbuffer.c:229-259 | the space a completed call found was at least the true one when it began and is at most the true one now, before the call's own transfer |
| RingRuns.RaceFreedom | pipewire-jack/jack/ringbuffer.h:36-42 | in every reachable state no cell is within reach of both threads and no access leaves the buffer |
| RingCalls.ConservativeViews | pipewire-jack/src/ringbuffer.c:187-198 | for as long as a thread keeps the answer of read_space or write_space, it lies between the true space when it was asked for and the true space now; no transfer in progress relies on more than there is |
| RingCalls.RunViews | pipewire-jack/src/ringbuffer.c:269-282 | what each thread knows of the space is conservative in every state of every run |
| RingCalls.NonBlocking | pipewire-jack/jack/ringbuffer.h:36-42 | inside every reachable call each thread has a next step, so neither waits for the other |
| RingCalls.WriterIsWaitFree | pipewire-jack/src/ringbuffer.c:229-259 | in every interleaving a write ends after at most three more steps of its own than its source has bytes |
| RingCalls.ReaderIsWaitFree | pipewire-jack/src/ringbuffer.c:113-177 | in every interleaving a read or peek ends after at most four more steps of its own than the bytes it asks for |
| RingSteps.StepInv | pipewire-jack/src/ringbuffer.c:113-282 | every step of either thread keeps the invariant of memory, pointers and both program positions |
| RingRuns.RunInv | pipewire-jack/src/ringbuffer.c:113-282 | that invariant holds in every state of every run |
| RingBuffer.Ringbuffer.constructor | pipewire-jack/src/ringbuffer.c:17-37 | the size is the least power of two that is at least max(sz, 2); empty and zeroed |
| RingBuffer.Ringbuffer.Available | pipewire-jack/src/ringbuffer.c:187-198 | the length of the queue |
| RingBuffer.Ringbuffer.Free | pipewire-jack/src/ringbuffer.c:269-282 | what the queue can still take, one cell staying free |
| RingBuffer.Ringbuffer.Read | pipewire-jack/src/ringbuffer.c:113-142 | moves the first min(cnt, available) bytes of the queue to the destination and touches no other destination byte |
| RingBuffer.Ringbuffer.Peek | pipewire-jack/src/ringbuffer.c:145-177 | the same bytes as a read, with the queue unchanged |
| RingBuffer.Ringbuffer.PeekThenAdvance | pipewire-jack/src/ringbuffer.c:145-184 | a peek and an advance over what it returned have the contract of Read |
| RingBuffer.Ringbuffer.Write | pipewire-jack/src/ringbuffer.c:229-259 | appends the first min(cnt, free) source bytes to the queue |
| RingBuffer.Ringbuffer.ReadAdvance | pipewire-jack/src/ringbuffer.c:180-184 | moves the pointer by any count, modulo the size; up to the available bytes, drops that many from the front of the queue |
| RingBuffer.Ringbuffer.WriteAdvance | pipewire-jack/src/ringbuffer.c:262-266 | moves the pointer by any count, modulo the size; up to the free cells, what lies in them becomes part of the queue |
| RingBuffer.Ringbuffer.GetReadVector | pipewire-jack/src/ringbuffer.c:51-78 | the two stretches spell out the queue |
| RingBuffer.Ringbuffer.GetWriteVector | pipewire-jack/src/ringbuffer.c:81-110 | the two lengths sum to the write space and the stretches are the free cells in reading order |
| RingBuffer.Ringbuffer.ReadThroughVector | pipewire-jack/src/ringbuffer.c:51-78 | copying out of the vector and advancing has the contract of Read |
| RingBuffer.Ringbuffer.WriteThroughVector | pipewire-jack/src/ringbuffer.c:81-110 | storing through the vector and advancing has the contract of Write |
| RingBuffer.Ringbuffer.Reset | pipewire-jack/src/ringbuffer.c:212-217 | empty and zeroed |
| RingBuffer.Ringbuffer.ResetSize | pipewire-jack/jack/ringbuffer.h:195-203 | the buffer is empty, and publishing n bytes moves the write pointer by n, if and only if the argument is a power of two |
| SListOrder.Merge | pipewire-jack/jack/jslist.h:242-262 | a rearrangement of both inputs |
| SListOrder.MergeSort | pipewire-jack/jack/jslist.h:266-290 | a rearrangement of the input |
| SListOrder.MergeSortCharacterised | pipewire-jack/jack/jslist.h:241-290 | for every comparator that orders the keys, the result is the one arrangement with ascending keys and, among equals, the later original element first |
| SListOrder.SortIsStableSortOfReversal | pipewire-jack/jack/jslist.h:241-290 | the sort equals a stable insertion sort of the reversed list |
| SListOrder.OrderedUnique | pipewire-jack/jack/jslist.h:241-290 | at most one arrangement of the same elements is in that order |
| SList.Sort | pipewire-jack/jack/jslist.h:266-290 | for any comparator, terminates with an acyclic list of the same nodes and data in the order of MergeSort, changing only their links |
| SList.SortMerge | pipewire-jack/jack/jslist.h:242-262 | relinks the nodes of two disjoint lists in the order of Merge |
| SList.Halve | pipewire-jack/jack/jslist.h:276-285 | cuts a list of n nodes into its first n/2 and the rest, two disjoint lists |
| SList.SortedOrder | pipewire-jack/jack/jslist.h:241-290 | what Sort leaves is the tie-reversed order of the nodes' data, and only that arrangement |
| SList.RemoveLink | pipewire-jack/jack/jslist.h:89-114 | the list without that node if it is in it, unchanged otherwise |
| SList.Remove | pipewire-jack/jack/jslist.h:138-165 | the list without the first node that carries the data, unchanged if there is none |
| SList.Append | pipewire-jack/jack/jslist.h:222-238 | the list with one fresh node at its end |
| SList.Copy | pipewire-jack/jack/jslist.h:198-218 | fresh nodes with the same data in the same order; the source is untouched |
| SList.Last | pipewire-jack/jack/jslist.h:77-85 | the last node, or null |
| SList.Length | pipewire-jack/jack/jslist.h:169-180 | the number of nodes |
| SList.Find | pipewire-jack/jack/jslist.h:184-194 | the first node that carries the data, or null |
| FileRefs.ReferenceCountsAreExact | pipewire-v4l2/src/pipewire-v4l2.c:301-322 | in every interleaving of open, dup, close, ioctl and mmap, a live file's count is its table entries plus references borrowed by calls in progress; free_file runs at most once, and is due or done exactly when both are zero |
| FileRefs.NoUseAfterFree | pipewire-v4l2/src/pipewire-v4l2.c:271-306 | in every reachable state no thread's next step touches a freed file, and no table entry leads to one |
| FileRefs.DropInv | pipewire-v4l2/src/pipewire-v4l2.c:301-306 | the decrement goes on to free if and only if it drops the only reference left, and keeps the invariant |
| FileRefs.CloseCallInv | pipewire-v4l2/src/pipewire-v4l2.c:401-420 | taking an entry out while holding two references keeps the invariant |
| FileRefs.AddInv | pipewire-v4l2/src/pipewire-v4l2.c:308-322 | a new entry and its reference keep the invariant |
| FileRefs.FindInv | pipewire-v4l2/src/pipewire-v4l2.c:751-768 | the lookup of dup, and its reference, keep the invariant |
| FileRefs.CreateInv | pipewire-v4l2/src/pipewire-v4l2.c:867-890 | both ends of open keep the invariant: the failed one frees an object nobody else knows |
| FileRefs.StepInv | pipewire-v4l2/src/pipewire-v4l2.c:301-420 | every step of every thread keeps the invariant |
| FileRefs.RunInv | pipewire-v4l2/src/pipewire-v4l2.c:301-420 | the invariant holds in every state of every run |
| OpenRaces.CalmOpensShare | pipewire-v4l2/src/pipewire-v4l2.c:800-872 | in every run in which no open finds the device without a file while another thread is about to enter one, any two descriptors of one device have the same file |
| OpenRaces.RacingOpensMayNotShare | pipewire-v4l2/src/pipewire-v4l2.c:800-872 | every run that reaches such an open can be continued to two mapped files of the device |
| OpenRaces.TwoOpensMayNotShare | pipewire-v4l2/src/pipewire-v4l2.c:800-872 | two threads opening any device are enough: a run from the empty table to two mapped files of it |
| OpenRaces.StepKeeps | pipewire-v4l2/src/pipewire-v4l2.c:301-420 | every step but such an open keeps the invariant: one file per device in the table or on its way to it, and nobody else opening the device while a thread makes its file |
| FdTable.Table.constructor | pipewire-v4l2/src/pipewire-v4l2.c:308-322 | an empty table satisfies the invariant |
| FdTable.Table.FindFd | pipewire-v4l2/src/pipewire-v4l2.c:347-358 | the first entry of the descriptor, none exactly if it is not mapped |
| FdTable.Table.FindDev | pipewire-v4l2/src/pipewire-v4l2.c:377-399 | the first entry of the device, found exactly if the device has a live file |
| FdTable.Table.AddFdMap | pipewire-v4l2/src/pipewire-v4l2.c:308-322 | one entry and one reference more; mapped descriptors stay distinct and open, every file's own descriptor open and its own |
| FdTable.Table.Dup | pipewire-v4l2/src/pipewire-v4l2.c:751-768 | a new descriptor of the same file exactly for mapped descriptors; a failed dup changes nothing |
| FdTable.Table.Open | pipewire-v4l2/src/pipewire-v4l2.c:800-890 | call by call, reopening a device with a live file yields another descriptor of that file, otherwise a new file; at most one live file per device |
| FdTable.Table.CloseEntry | pipewire-v4l2/src/pipewire-v4l2.c:401-420 | the file survives exactly if it has another entry; its last entry takes the file and both descriptors with it, any other marks it closed and keeps its own descriptor open |
| FdTable.Table.Close | pipewire-v4l2/src/pipewire-v4l2.c:893-909 | the descriptor is unmapped, every other mapping stays, unmapped descriptors and numbers that are not open are passed through |
| FdMaps.EntryClosed | pipewire-v4l2/src/pipewire-v4l2.c:893-909 | the table invariant survives the close of any entry, with and without the file |
| FdMaps.OwnDescriptorReassigned | pipewire-v4l2/src/pipewire-v4l2.c:377-399 | handing a closed file the descriptor of one of its entries keeps the table invariant |
| ParamSync.CommitReflectsLastEnumeration | pipewire-v4l2/src/pipewire-v4l2.c:187-250 | for every sequence of announcements and replies between two commits and every id: an announced id ends with exactly the current-generation replies after its last announcement, in order; any other keeps its list and gains its current replies |
| ParamSync.UpdateById | pipewire-v4l2/src/pipewire-v4l2.c:218-250 | one commit, seen from one id, for every well-formed pending list |
| ParamSync.StaleNeverCommitted | pipewire-v4l2/src/pipewire-v4l2.c:230-250 | whatever a commit adds is a pending reply of the generation the node info asks for |
| ParamSync.AddedKeepsInv | pipewire-v4l2/src/pipewire-v4l2.c:187-216 | whatever is added, pending has at most one marker per id and no reply before it |
| ParamSync.PendingIsSinceLastMark | pipewire-v4l2/src/pipewire-v4l2.c:187-216 | pending holds, per id, exactly what came since its last announcement |
| ParamSync.Node.ClearParams | pipewire-v4l2/src/pipewire-v4l2.c:172-185 | the list without the id (or empty for the invalid id), and how many entries went |
| ParamSync.Node.AddParam | pipewire-v4l2/src/pipewire-v4l2.c:187-216 | the list of Added, which takes the id from the pod when none is given and clears the id for a marker |
| ParamSync.Node.RemoveStale | pipewire-v4l2/src/pipewire-v4l2.c:230-239 | the passes per table slot together keep exactly the entries that are stale for no slot |
| ParamSync.Node.UpdateParams | pipewire-v4l2/src/pipewire-v4l2.c:218-250 | pending is empty and the list is the commit of the surviving entries; nothing happens without node info |
| ParamSync.Node.NodeEventInfo | pipewire-v4l2/src/pipewire-v4l2.c:551-599 | every changed slot of the merged table is announced, readable ones get the generation of their request |
| ParamSync.RepeatedInfoIsSilent | src/pipewire/introspect.c:194-218 | merging the same node info again marks no slot changed: nothing is announced and every generation stays |
| ParamSync.Node.NodeEventParam | pipewire-v4l2/src/pipewire-v4l2.c:601-609 | a reply is one more call on the pending list |
| ParamSync.Node.OnSyncReply | pipewire-v4l2/src/pipewire-v4l2.c:512-524 | only the answer to the latest request commits, and then every id has the contents its calls since the last commit ask for |
| Formats.InfoRoundTrip | pipewire-v4l2/src/pipewire-v4l2.c:1188-1241 | for any table with distinct codes, info to format to info restores media type, subtype and size, and the raw format exactly when it was not 0 or the first raw row has format 0 |
| Formats.InfoIsRestored | pipewire-v4l2/src/pipewire-v4l2.c:959-961 | with a table that begins like the shim's, info to format to info restores everything, a raw format of 0 included |
| Formats.CanonicalIsIdempotent | pipewire-v4l2/src/pipewire-v4l2.c:1085-1124 | format to info to format is idempotent and keeps the size |
| Formats.CanonicalForm | pipewire-v4l2/src/pipewire-v4l2.c:1066-1124 | for any table with distinct codes and any format with a code of the table, format to info to format is refused or yields what the first row of the same meaning makes of the size |
| Formats.CodeIsKeptIff | pipewire-v4l2/src/pipewire-v4l2.c:1066-1083 | a convertible code is kept if and only if its row is raw or ENCODED and no earlier row has its meaning; otherwise the first such row's code replaces it, as XRGB555 replaces RGB555 |
| Formats.UnknownCodesCollapse | pipewire-v4l2/src/pipewire-v4l2.c:960-1033 | with a table that begins like the shim's, every raw code without a pixel format becomes the first row's code |
| Formats.ImageHoldsBytes | pipewire-v4l2/src/pipewire-v4l2.c:1232-1238 | line and image size are exact if and only if their products stay in 32 bits; if the roundings do as well, the image holds width * height * bpp bytes |
| Formats.LargestSizesAreEmpty | pipewire-v4l2/src/pipewire-v4l2.c:1232-1238 | a width or height that rounds up to 2^32 gives an empty line or image |
| Formats.SmallScoresFit | pipewire-v4l2/src/pipewire-v4l2.c:1555-1563 | for sizes up to 32767 the int score never overflows and is never the -1 of "none yet" |
| Formats.BoundIsTight | pipewire-v4l2/src/pipewire-v4l2.c:1555-1563 | at 32768 by 32768 against the empty size it no longer fits |
| Formats.TryFormat | pipewire-v4l2/src/pipewire-v4l2.c:1565-1616 | the first convertible Format parameter, else the first candidate of minimal score, else the input; refused exactly for other buffer kinds |
| Formats.SelectionIsUnique | pipewire-v4l2/src/pipewire-v4l2.c:1565-1616 | that description fits one format only |
| Formats.SelectionIsIdempotent | pipewire-v4l2/src/pipewire-v4l2.c:1565-1616 | trying the selected format selects it again |
| Formats.RowOfMedia | pipewire-v4l2/src/pipewire-v4l2.c:1066-1075 | the first row that matches, or none matches |
| Formats.RowOfFourcc | pipewire-v4l2/src/pipewire-v4l2.c:1077-1083 | the first row with the code, or none has it |
| Streaming.QbufsAreSeparated | pipewire-v4l2/src/pipewire-v4l2.c:1936-1967 | between two accepted qbufs of one buffer lies its dqbuf, a streamoff or its re-announcement |
| Streaming.MmapSelectsTheQueriedBuffer | pipewire-v4l2/src/pipewire-v4l2.c:2463-2474 | mmap at the queried offset and length selects the queried buffer if and only if its length is the current non-zero size and the 32-bit offset did not wrap |
| Streaming.MmapSelectsAnnouncedIff | pipewire-v4l2/src/pipewire-v4l2.c:2463-2474 | mmap selects an announced buffer if and only if the length is the current non-zero size and the offset a multiple of it below the end of the announced buffers |
| Streaming.MmapReachesPastTheEnd | pipewire-v4l2/src/pipewire-v4l2.c:2468-2474 | the offset of a buffer that was not announced passes the checks and selects its slot |
| Streaming.File.constructor | pipewire-v4l2/src/pipewire-v4l2.c:1317-1344 | a file without stream and buffers satisfies the invariant |
| Streaming.File.AddBuffer | pipewire-v4l2/src/pipewire-v4l2.c:1317-1344 | one more slot, not queued, with its own index and 32-bit offset; the others unchanged |
| Streaming.File.RemoveBuffer | pipewire-v4l2/src/pipewire-v4l2.c:1346-1350 | one buffer less, with the invariant kept |
| Streaming.File.Disconnect | pipewire-v4l2/src/pipewire-v4l2.c:1618-1627 | no stream, no buffers |
| Streaming.File.Connect | pipewire-v4l2/src/pipewire-v4l2.c:1629-1709 | success exactly if the format converts and the stream is made and gets to streaming; buffers only with a stream |
| Streaming.File.ReqBufs | pipewire-v4l2/src/pipewire-v4l2.c:1851-1912 | exactly when the request succeeds and when it is busy, and what it leaves in each case |
| Streaming.File.QueryBuf | pipewire-v4l2/src/pipewire-v4l2.c:1914-1934 | exactly for existing buffers, the slot with its own index and offset |
| Streaming.File.QBuf | pipewire-v4l2/src/pipewire-v4l2.c:1936-1967 | accepted exactly if the buffer exists and its last event was not a qbuf; other slots unchanged |
| Streaming.File.DqBuf | pipewire-v4l2/src/pipewire-v4l2.c:1968-2031 | the buffer the stream hands out, no longer queued, numbered by the dequeues since streaming was switched off, modulo 2^32 |
| Streaming.File.StreamOn | pipewire-v4l2/src/pipewire-v4l2.c:2033-2057 | success exactly with buffers and a stream that is or becomes active |
| Streaming.File.StreamOff | pipewire-v4l2/src/pipewire-v4l2.c:2058-2084 | nothing is queued, not running, and the numbering starts over |
| Streaming.File.Mmap | pipewire-v4l2/src/pipewire-v4l2.c:2463-2494 | for the current size at a multiple of it below the end of the announced buffers, marks that buffer's slot mapped and counts the mapping; EIO without a size, EINVAL for another length or offset, which change nothing |
| PcmFrames.OffsetSurvivesBoundaryIff | pipewire-alsa/alsa-plugins/pcm_pipewire.c:315-337 | reducing the hardware pointer by the boundary keeps every ring offset if and only if the boundary is a multiple of the buffer size |
| PcmFrames.FittingFits | pipewire-alsa/alsa-plugins/pcm_pipewire.c:274-283 | the frames transferred fit into every block and, with a block, into one period |
| PcmFrames.EmittedAudio | pipewire-alsa/alsa-plugins/pcm_pipewire.c:313-350 | next frames followed by any silence keep the audible output equal to the consumed history |
| PcmFrames.AnswerIsFill | pipewire-alsa/alsa-plugins/pcm_pipewire.c:429-429 | with a boundary beyond the buffer size, every answer that leads from one pointer to the other is the number of frames ready |
| PcmFrames.DeterminedIff | pipewire-alsa/alsa-plugins/pcm_pipewire.c:525-533 | two pointers reduced by the same boundary determine the frames ready if and only if it exceeds the buffer size or the ring is neither empty nor full |
| PcmFrames.FallbackTellsIff | pipewire-alsa/alsa-plugins/pcm_pipewire.c:531-533 | with the hardware pointer reduced by the buffer size and the application pointer by a larger boundary, the number of frames ready leads from one to the other if and only if the total consumed, modulo that boundary, is below the buffer size; then no other number does |
| PcmFrames.StreamEmits | pipewire-alsa/alsa-plugins/pcm_pipewire.c:313-350 | emitting the next frames and silence and moving the pointer keep ring, pointers and output in agreement with the frames committed |
| PcmFrames.StreamCommits | pipewire-alsa/alsa-plugins/pcm_pipewire.c:313-326 | an application frame stored at its cell keeps that agreement |
| PcmPlayback.Plugin.constructor | pipewire-alsa/alsa-plugins/pcm_pipewire.c:576-581 | nothing committed, consumed or output |
| PcmPlayback.Plugin.LimitWant | pipewire-alsa/alsa-plugins/pcm_pipewire.c:274-289 | the minimum over the blocks; the chunk size exceeds no block |
| PcmPlayback.Plugin.Process | pipewire-alsa/alsa-plugins/pcm_pipewire.c:258-358 | in RUNNING and DRAINING the next application frames, then only silence; the hardware pointer is the total consumed modulo the boundary, the offset that total modulo the buffer size; xrun exactly when silence was needed |
| PcmPlayback.Plugin.CopyWrap | pipewire-alsa/alsa-plugins/pcm_pipewire.c:318-326 | the frames from the offset on, wrapping at the ring's end |
| PcmPlayback.Plugin.HwOffset | pipewire-alsa/alsa-plugins/pcm_pipewire.c:315-319 | the offset is the total consumed modulo the buffer size, across boundary wraps |
| PcmPlayback.Plugin.AdvanceHwPtr | pipewire-alsa/alsa-plugins/pcm_pipewire.c:334-337 | the pointer is the new total modulo the boundary |
| PcmPlayback.Plugin.Commit | pipewire-alsa/alsa-plugins/pcm_pipewire.c:313-326 | application writes into the ring extend the committed history without disturbing unconsumed frames |
| PcmPlayback.Plugin.OnStreamProcess | pipewire-alsa/alsa-plugins/pcm_pipewire.c:414-476 | when a flush is issued, exactly; at most once per drain and only with every committed frame copied out; draining and drained are never both set |
| PcmPlayback.Plugin.SetState | pipewire-alsa/alsa-plugins/pcm_pipewire.c:313-314 | alsa-lib moves the device between states without touching ring, pointers or drain flags |
| PcmPlayback.Plugin.OnStreamDrained | pipewire-alsa/alsa-plugins/pcm_pipewire.c:405-412 | drained and no longer draining |
| PcmPlayback.Plugin.Drain | pipewire-alsa/alsa-plugins/pcm_pipewire.c:495-511 | neither flag, no flush yet |
| PcmPlayback.Plugin.Prepare | pipewire-alsa/alsa-plugins/pcm_pipewire.c:576-581 | everything starts over |
| Seqlock.SuccessfulReadsAreSnapshots | pipewire-alsa/alsa-plugins/pcm_pipewire.c:225-236 | in every interleaving, a query that succeeds with less than one wrap of the counter during it, for any even number of counter values, returns the four fields of the state after one whole number of callbacks |
| Seqlock.WrapAdmitsTornRead | pipewire-alsa/alsa-plugins/pcm_pipewire.c:27-34 | with exactly one wrap there is a run in which a successful query mixes two states, for any even number of counter values |
| Seqlock.StoresAddUp | pipewire-alsa/alsa-plugins/pcm_pipewire.c:440-458 | the stores between the two increments, one by one, add up to the callback's closed form |
| Seqlock.RunInv | pipewire-alsa/alsa-plugins/pcm_pipewire.c:440-458 | the invariant of counter, callback position, query position and snapshots holds after every sequence of steps |
| Seqlock.SnapshotHwPtr | pipewire-alsa/alsa-plugins/pcm_pipewire.c:334-337 | a snapshot's hardware pointer is the number of frames copied so far modulo the boundary |
| Metadata.UpdateAgreesIff | pipewire-jack/src/metadata.c:142-197 | from agreement with the map of maps (unique subjects and keys, no empty description), an update keeps agreement if and only if it is no interior deletion |
| Metadata.InteriorLosesFirst | pipewire-jack/src/metadata.c:114-124 | an interior deletion always loses the first property |
| Metadata.SurvivesIff | pipewire-jack/src/metadata.c:114-124 | which properties are still visible after a deletion, exactly |
| Metadata.DeletedStaysVisibleIff | pipewire-jack/src/metadata.c:114-124 | when the deleted property itself stays visible, exactly |
| Metadata.VisibleTwiceIff | pipewire-jack/src/metadata.c:114-124 | which properties are visible twice after a deletion, exactly |
| Metadata.InteriorExamples | pipewire-jack/src/metadata.c:114-124 | deleting the second of three leaves the third and the second, deleting the second of four the third, the fourth and the third |
| Metadata.ChangesIff | pipewire-jack/src/metadata.c:126-197 | the result is positive if and only if the map of maps changes |
| Metadata.UpdateReports | pipewire-jack/src/metadata.c:142-197 | result and reported kind of change are those of the map of maps |
| Metadata.SubjectIndex | pipewire-jack/src/metadata.c:19-27 | the first description of the subject, or none has it |
| Metadata.KeyIndex | pipewire-jack/src/metadata.c:83-92 | the first property with the key, or none has it |
| MetadataStrings.UpdateConserves | pipewire-jack/src/metadata.c:29-41 | for every string and every update but an interior deletion, uses afterwards plus frees are uses before plus allocations |
| MetadataStrings.UpdateSoundIff | pipewire-jack/src/metadata.c:114-197 | from a state in which every allocated string is in use once or has been freed once, an update leads to such a state if and only if it is no interior deletion |
| MetadataStrings.InteriorFreesTwice | pipewire-jack/src/metadata.c:114-124 | after any interior deletion, deleting the description leaves some string freed at least twice |
| MetadataStrings.SoundIsUsable | pipewire-jack/src/metadata.c:142-197 | in such a state every update reads no freed string and frees none twice |
| MetadataStrings.RunAgrees | pipewire-jack/src/metadata.c:142-197 | every run of updates whose deletions take first or last properties agrees with the map of maps and has every string in use once or freed once |
| MetadataStore.Store.FindDescription | pipewire-jack/src/metadata.c:19-27 | the search loop returns that index |
| Descriptors.Allocator.Clear | pipewire-jack/src/metadata.c:36-41 | frees the three strings of a property, which must be three different ones not freed before |
| Descriptors.Descriptor.FindProperty | pipewire-jack/src/metadata.c:83-92 | the search loop returns that index; it reads the key strings, none of which may be freed |
| Descriptors.Descriptor.AddProperty | pipewire-jack/src/metadata.c:94-112 | appends one property with three new strings; a full array doubles, starting from eight, and keeps its entries |
| Descriptors.Descriptor.RemoveProperty | pipewire-jack/src/metadata.c:114-124 | frees the entry's three strings; decrementing the count and the memmove in the array leave exactly the properties of Moved |
| Descriptors.Descriptor.MoveToStart | pipewire-jack/src/metadata.c:118-120 | the ascending copy leaves the moved entries at the start and every entry behind them as it was |
| Descriptors.Descriptor.FreeStrings | pipewire-jack/src/metadata.c:271-276 | frees the strings of every visible entry, none twice |
| MetadataStore.Store.RemoveProperty | pipewire-jack/src/metadata.c:114-124 | the descriptions afterwards and the strings freed; a description goes with its only property |
| Descriptors.Descriptor.ChangeProperty | pipewire-jack/src/metadata.c:126-140 | the number of strings that differed, which are freed and allocated anew, and the new property |
| MetadataStore.Store.UpdateProperty | pipewire-jack/src/metadata.c:142-197 | the whole effect on arrays and strings; keeps agreement, and the single ownership of every string, exactly unless interior; positive exactly when the contents changed; reports the kind of change exactly then |
| MetadataStore.Store.GetProperty | pipewire-jack/src/metadata.c:241-268 | the map's entry, or none |
| MetadataStore.Store.GetProperties | pipewire-jack/src/metadata.c:283-300 | a fresh copy that holds exactly the map's entries of the subject, with their number |
| Descriptors.Descriptor.CopyProperties | pipewire-jack/src/metadata.c:43-53 | a fresh array with the same texts in the same order, from strings that are not freed |
| JsonString.RoundTripIff | spa/tools/spa-json-dump.c:18-52 | a conforming decoder returns the printed bytes if and only if none is NUL, and refuses the text otherwise |
| JsonString.PrintingIsInjective | spa/tools/spa-json-dump.c:18-52 | different byte strings print differently, NUL bytes included |
| JsonString.NoControlBytesIff | spa/tools/spa-json-dump.c:43-48 | the text holds a raw control byte exactly if the string held a NUL |
| JsonString.BodyIsEscaped | spa/tools/spa-json-dump.c:40-42 | quotes and backslashes occur inside the quotes only as part of an escape |
| JsonString.ByteRoundTrip | spa/tools/spa-json-dump.c:24-49 | decoding undoes the printing of each byte, whatever follows |
| JsonString.EncodeString | spa/tools/spa-json-dump.c:18-52 | the loop prints the text that decodes back to a NUL-free input |

## Left out

- RingBuffer.Ringbuffer.constructor: sizes above 2^30, for which the source's int shift is undefined, and allocation failure.
- RingBuffer.Ringbuffer.Read: the destination must not be the ring's own buffer, as for memcpy.
- RingBuffer.Ringbuffer.Peek: the destination must not be the ring's own buffer, as for memcpy.
- RingBuffer.Ringbuffer.Write: the source must not be the ring's own buffer, as for memcpy.
- RingBuffer.Ringbuffer.ResetSize: a size above the allocated one, which the interface forbids; for size 0, whose mask is all ones, only the stored fields.
- FdTable.Table.Open: the descriptor a file had before it was handed another one stays open; the leak is not tracked.
- FdTable.Table.Close: closing an open descriptor that the application was not given.
- Formats.TryFormat: requires every candidate's score to fit a C int; `SmallScoresFit` gives the sizes for which it does.
- Streaming.File.AddBuffer: more buffers than the 32 slots; the stream negotiates at most that many.
- Streaming.File.RemoveBuffer: a removal without a buffer, which would wrap the count; the stream removes what it added.
- Streaming.File.Connect: more buffers than the 32 slots; the stream negotiates at most that many.
- Streaming.File.ReqBufs: more buffers than the 32 slots, and the refusal of other buffer and memory types.
- Streaming.File.DqBuf: the wait for a buffer is one step, and the buffer handed out is one of the announced ones.
- Streaming.File.Mmap: promises nothing for a slot behind the announced buffers, where the source follows the pointer of a slot that may hold none; negative offsets.
- PcmFrames.DeterminedIff: assumes that both pointers are reduced by the same boundary, as they are whenever the sw params can be read; `FallbackTellsIff` is about the other case.
- PcmPlayback.Plugin.Process: both pointers are reduced by the plugin's boundary; if that is the buffer size, so that they do not determine it, alsa-lib's answer is required to be the number of frames ready.
- PcmPlayback.Plugin.OnStreamProcess: the same requirement as Process.
- PcmPlayback.Plugin.Prepare: one step; a prepare during a callback or a delay query is not modelled.
- Seqlock.SuccessfulReadsAreSnapshots: no prepare in between, and the query may retry forever.
- MetadataStore.Store.UpdateProperty: requires that no visible string has been freed and that the call frees none twice, which holds unless an interior deletion came before (`SoundIsUsable`, `RunAgrees`); no allocation failure.
- Descriptors.Descriptor.CopyProperties: the strings that jack_get_properties allocates belong to the caller and are not tracked.
- Descriptors.Descriptor.RemoveProperty: requires the entry's strings not to have been freed, as free does.
- MetadataStore.Store.RemoveProperty: the same requirement.
- SListOrder.MergeSortCharacterised: a comparator that is no strict weak order on the data; `SList.Sort` itself is proved for any comparator.
- The capture direction of the ALSA plugin, and what the delay query computes from its loads afterwards.
- Weak memory: all step systems are sequentially consistent, as the ring buffer has no barriers to model.
- munmap and the lifetime of file mappings, which carry no reference.
- The format table beyond its first row, whose codes come from a kernel header, and pod parsing and fixation: the table and the parsed parameters are inputs.
- The generation number that a table slot happens to hold before its first request is an input.
- jack_slist_prepend is the constructor of a list node; jack_slist_free and the pool only give memory back, which the heap model does not reuse; jack_ringbuffer_mlock is a system call that changes no field but its flag.
- jack_set_property and the other callers of the metadata store: argument checks around UpdateProperty.
- `dump` of spa-json-dump.c: the JSON parser it walks is not part of this model.
- uuid.c, net.c, control.c, statistics.c, ctl_pipewire.c, v4l2-func.c and the tutorials: formatting, stubs, volumes and forwarding.
