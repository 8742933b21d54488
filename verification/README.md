# The fabric manager, verified

A Dafny model of the parts of this repository where a wrong bit, a lost task or a mixed-up
login would matter, with proofs of what those parts promise. Five areas are covered:

- **Checksums.** The four CRC-32 implementations of the FCoE library (slicing-by-8, its
  copying twin, the nibble table, the bit-serial big-endian loop) and the trailer of forwarded
  frames. One bit step defines everything; the tables are derived from it and pinned by 64
  entries of the source's own literals. The checksum is the Frame Check Sequence of section
  3.2.9 of IEEE 802.3.
- **Quoting.** The command line's quoter, tokenizer, escaper and unescaper, as each other's
  inverses, and the tokenizer's behaviour on unfinished lines.
- **Login exchanges.** The table that gives each fabric login an exchange identifier of its
  own, the bytes of the translated frames, and all interleavings of hosts, fabric and
  processor threads.
- **The task queue.** The linked list on the heap, and all interleavings of threads adding and
  getting under the mutex and the condition variable.
- **Wire formats.** Inventory replies between server and client library, tunnelled control
  frames, and descriptor lists.

Code the source writes as loops over buffers, lists and fields is here a method with a loop, an
array or a class, proved against a function; code the source writes as expressions is a
function. The laws are lemmas about the functions.

## How to read it

| files | content |
|---|---|
| `Wrappers`, `Bytes`, `Buffers` | results, byte orders, filling a buffer through an offset |
| `Crc32`, `Crc32Tables`, `CrcBits` | the register, its algebra, the tables, bursts of bits |
| `Crc32Sliced`, `EtherCrc32`, `FrameCheck` | the four loops, bit reflection, the frame trailer |
| `Quoting`, `Tokenizer`, `TokenizerLaws` | escapes and quotes, the tokenizer, what holds of both |
| `RequestMap`, `LoginFrames`, `FcResponse` | the slot table, the login frames, the reply handler |
| `Exchange`, `ExchangeLaws` | logins in flight as steps, what every run keeps |
| `TaskQueue`, `QueueThreads` | the linked list, the threads around it |
| `Inventory`, `InventoryCodec` | inventory replies: the bytes, the buffers |
| `Descriptors`, `Eoib`, `FipFrames`, `PacketReader` | descriptor lists, frames, their readers |

## What does not hold

Where the code falls short of what it seems meant to do, the code is modelled as it is, and
the exact condition is proved.

- An add to a full table hands out slot 1 again instead of reporting 0 as
  `src/vps/vfm/map_util.c:23` says (`RequestMap.FullTableReusesSlotOne`). Such a table does come
  about, and two outstanding logins then share an identifier (`ExchangeLaws.FullTableIsReachable`).
  A caller is safe when a slot is free; on a full table identifiers stay distinct exactly when
  slot 1 was one that nobody waits for any more, which no caller can see
  (`ExchangeLaws.AddKeepsOxidsDistinctIff`).
- A login reply addressed to the manager, or not coming from the fabric's login server, passes
  the table by, and its slot stays taken for good (`ExchangeLaws.ReplyRouting`,
  `ExchangeLaws.LeakedForEver`). An ordinary rejection is enough: it has no assigned address,
  and until its own login is accepted the manager's address is 0
  (`src/vps/vfm/sniffer.c:17`, `:209`, `:245`), so the first host's rejected login leaks its slot
  and the host is never answered (`ExchangeLaws.LeakIsReachable`); 1023 of them leave the table
  full although nobody waits for anything (`ExchangeLaws.LeaksFillTheTable`).
- A bridge response under the query operation leads the client's unmarshalling to its size, not
  its data (`Inventory.BridgePayloadIff`). The client's own inventory function asks with the
  inventory operation, under which the data comes back.
- Gateway and manager identifiers in tunnel headers are sent in host order and read in network
  order (`FipFrames.IdComesBackIff`).
- `fill_ether_hdr` would write, and the reader would not understand, a tag other than an 802.1Q
  tag (`FipFrames.FrameRoundTripIff`). No frame is sent with one: `send_packet` passes a zero tag.
- The tunnel's length byte overflows above 243 dwords of descriptors
  (`FipFrames.TunnelLengthIsRealIff`).
- `send_packet` leaves the caller's control header in network order, so the same header sent
  again goes out right only if its fields read the same both ways
  (`FipFrames.SentTwiceIsRightIff`).
- `create_tlv` writes past the value it allocates for types 7, 13, 240 and 241, and for 5 with
  `OPEN_FCOE`, at every length; for the others exactly when the length is too small
  (`Descriptors.CopyStaysInsideIff`). The bytes that are sent are not affected.
- A rejection sent to the fabric has its sequence count and parameter turned round
  (`LoginFrames.RejectGoesBack`).
- The FC-map descriptor is read at another place than it is written
  (`Descriptors.FcMapComesBackIff`); the advertisement built without `OPEN_FCOE` is one dword
  longer than declared (`Descriptors.AdvertisementFillsDeclaredIff`).
- A forwarded FC header has its parameter field turned round and its reserved byte cleared
  (`FrameCheck.ForwardedUnchangedIff`).
- `src/vps/vfm/ext/open-fcoe/include/crc32_le.h:19` calls the checksum CRC32c; the code computes
  the IEEE 802.3 polynomial.
- `src/vps/vfm/vfm_create_pk.c:732` tests `flags && SET_FP`, which is true of any non-zero
  flags, and bit 0 has just been set: the host is always given FC map plus FC identifier.
- In `src/vps/cli/lib/escape.py` some names are never defined (`in_double_quote_section`,
  `special_characterd_line`, ...). They are read as the variables they evidently stand for, and
  the exception raised as the one the tokenizer catches.

## Model

| member | source | states |
|---|---|---|
| Crc32.StepsLinear | src/vps/vfm/ext/open-fcoe/ether_crc32.c:42-46 | the checksum register is linear: any number of bit steps distributes over exclusive or |
| Crc32.StepsInjective | src/vps/vfm/ext/open-fcoe/ether_crc32.c:42-46 | no two register values ever meet again, however many steps are taken |
| Crc32.RegisterAppend | src/vps/vfm/ext/open-fcoe/include/ether_crc32.h:26-30 | feeding a buffer in two pieces, the first result into the second, equals feeding it whole |
| Crc32.RegisterInjective | src/vps/vfm/ext/open-fcoe/ether_crc32.c:42-46 | two registers that agree after the same data agreed before it |
| Crc32.RegisterFour | src/vps/vfm/ext/open-fcoe/crc32_le.c:76-81 | four bytes through the register are one little-endian word and 32 steps |
| Crc32Tables.TableRecurrence | src/vps/vfm/ext/open-fcoe/crc32_le_tab.c:60-594 | each table is the table before it, advanced by one zero byte |
| Crc32Tables.PowersAreListed | src/vps/vfm/ext/open-fcoe/crc32_le_tab.c:60-594 | the 64 entries at powers of two that the source lists in its eight tables are those the bit step gives |
| Crc32Tables.TableLinear | src/vps/vfm/ext/open-fcoe/crc32_le_tab.c:60-594 | each table is linear in its index |
| Crc32Tables.TablePinned | src/vps/vfm/ext/open-fcoe/crc32_le_tab.c:60-594 | any linear table with those eight entries is the table: the rest of the 256 follow |
| Crc32Tables.TableStepIsRegister | src/vps/vfm/ext/open-fcoe/crc32_le.c:59-60 | one look-up in the first table is one byte through the bit-serial register |
| Crc32Tables.SliceStepIsRegister | src/vps/vfm/ext/open-fcoe/crc32_le.c:64-81 | the eight look-ups of one slicing round are eight bytes through the bit-serial register |
| Crc32Sliced.Crc32Sb8 | src/vps/vfm/ext/open-fcoe/crc32_le.c:45-86 | for every seed, buffer, length and alignment, prologue, 8-byte body and tail give the bit-serial register |
| Crc32Sliced.Crc32Copy | src/vps/vfm/ext/open-fcoe/crc32_le.c:89-141 | however source and destination lie, the result is the checksum of what the destination then holds, nothing around it changed; and that is the source's bytes unless the destination starts inside the source behind its first byte |
| EtherCrc32.NibbleStepIsSteps | src/vps/vfm/ext/open-fcoe/ether_crc32.c:34-45 | a look-up in the 16-entry table is four bit steps |
| EtherCrc32.EtherCrc32LePartial | src/vps/vfm/ext/open-fcoe/ether_crc32.c:31-49 | the nibble loop gives the bit-serial register, hence what slicing-by-8 gives |
| EtherCrc32.EtherCrc32Le | src/vps/vfm/ext/open-fcoe/ether_crc32.c:51-55 | the same from the standard seed |
| EtherCrc32.EtherCrc32BePartial | src/vps/vfm/ext/open-fcoe/ether_crc32.c:57-76 | the bit-serial loop gives the big-endian register |
| EtherCrc32.BeStepMirrored | src/vps/vfm/ext/open-fcoe/ether_crc32.c:66-72 | one big-endian bit step, seen in a mirror, is one little-endian bit step |
| EtherCrc32.BigEndianMirrorsLittle | src/vps/vfm/ext/open-fcoe/ether_crc32.c:57-76 | for every buffer and start value the bit-reversed big-endian result is the little-endian result from the reversed start |
| EtherCrc32.ReverseIsReversal | src/vps/vfm/ext/open-fcoe/ether_crc32.c:23-27 | the mirrored word has, counted from below, the bits the word has counted from the top |
| EtherCrc32.PartialResultsChain | src/vps/vfm/ext/open-fcoe/include/ether_crc32.h:26-32 | big-endian partial results chain over any split too |
| CrcBits.RegisterIsBitFold | src/vps/vfm/ext/open-fcoe/ether_crc32.c:42-46 | the register reads its data as one stream of bits, lowest bit of each byte first |
| CrcBits.ShortStreamsDiffer | src/vps/vfm/ext/open-fcoe/ether_crc32.c:42-46 | up to 32 different bits always leave different registers |
| CrcBits.BurstDetected | src/vps/vfm/ext/open-fcoe/ether_crc32.c:31-49 | two buffers that differ only within 32 consecutive bits, at any bit position, never have the same checksum |
| FrameCheck.ResidueIff | src/vps/vfm/sniffer.c:685-689 | body and four further bytes run to 0xdebb20e3 exactly when those bytes are the complemented checksum, low byte first |
| FrameCheck.BurstBreaksFrame | src/vps/vfm/sniffer.c:685-689 | a burst of up to 32 bits anywhere in a frame, trailer included, spoils the residue |
| FrameCheck.ForwardedBytes | src/vps/vfm/sniffer.c:135-177 | what reading and rewriting does to the 24 bytes of an FC header |
| FrameCheck.ForwardedUnchangedIff | src/vps/vfm/sniffer.c:135-177 | exactly when a forwarded header is the header that came in |
| FrameCheck.ElsFrameChecks | src/vps/vfm/sniffer.c:598-707 | header and payload of every forwarded frame, with their trailer, give the residue, in both encapsulations |
| FrameCheck.SofDecodes | src/vps/vfm/sniffer.c:27-32 | the older form's field decodes to version 0, the dwords of body and trailer modulo 1024, and the start code |
| FrameCheck.ElsFrameParts | src/vps/vfm/sniffer.c:631-692 | addresses, type, header, payload and end mark are found in the frame where the host looks for them |
| FrameCheck.ForwardedIsInternal | src/vps/vfm/sniffer.c:610-611 | the forwarded port is internal and otherwise the port that came in |
| FrameCheck.BuildElsFrame | src/vps/vfm/sniffer.c:598-707 | the buffer filled through a moving pointer is that frame, byte for byte; the tunnel's length byte and its port without the external flag |
| Quoting.ReadEscapeAt | src/vps/cli/lib/escape.py:241-276 | the caret escape read at an index, with the error of each branch and its position |
| Quoting.AvertUnallowable | src/vps/cli/lib/escape.py:43-54 | the loop yields the escaped form of each character in order |
| Quoting.QuotedIsEnterable | src/vps/cli/lib/escape.py:71-93 | a quoted string holds no character that cannot be typed |
| Quoting.EscapedIsPrintable | src/vps/cli/lib/escape.py:96-101 | an escaped string holds no unprintable character |
| Quoting.UnescapeUndoesEscape | src/vps/cli/lib/escape.py:96-161 | unescaping gives back every string that was escaped |
| Quoting.Unescape | src/vps/cli/lib/escape.py:104-161 | the index loop, each error with its position, is the recursive reading |
| Tokenizer.Tokenize | src/vps/cli/lib/escape.py:165-303 | the index loop with its flags is the state machine, on every line, with the error handling of unfinished lines |
| Tokenizer.Unquote | src/vps/cli/lib/escape.py:306-321 | exactly one token, without blanks outside quotes |
| TokenizerLaws.Resume | src/vps/cli/lib/escape.py:196-280 | a scan can be stopped at any character and resumed with more input |
| TokenizerLaws.ScanKeepsValid | src/vps/cli/lib/escape.py:227-238 | never inside both kinds of quotes at once, on any input |
| TokenizerLaws.ScanQuote | src/vps/cli/lib/escape.py:71-93 | scanning a quoted string from any state between tokens collects exactly the string |
| TokenizerLaws.TokenizeUndoesQuote | src/vps/cli/lib/escape.py:165-303 | any list of strings, each quoted, joined by any non-empty blanks, tokenizes to the list |
| TokenizerLaws.UnquoteUndoesQuote | src/vps/cli/lib/escape.py:306-321 | a single quoted string gives back the string |
| TokenizerLaws.QuoteInjective | src/vps/cli/lib/escape.py:71-93 | different strings never quote the same |
| TokenizerLaws.TokensGrow | src/vps/cli/lib/escape.py:214-218 | tokens once finished, and characters once collected, stay as they are |
| TokenizerLaws.PrefixStable | src/vps/cli/lib/interpreter.py:91-94 | an unfinished line's finished tokens are the first tokens of every valid line that begins with it: all of them if it ends between tokens; with an empty stand-in for one more if it breaks off in an escape or in quotes; and otherwise with a last token that the line's own begins with |
| TokenizerLaws.StuckInToken | src/vps/cli/lib/escape.py:298-303 | a line that breaks off inside an escape breaks off inside a token |
| TokenizerLaws.CompletableIff | src/vps/cli/lib/escape.py:240-303 | a line can be completed to a valid one exactly when its only error, if any, is that it ends too early |
| TokenizerLaws.Completion | src/vps/cli/lib/escape.py:240-303 | and this is an ending that does it |
| TokenizerLaws.WrongStaysWrong | src/vps/cli/lib/escape.py:240-303 | no ending repairs any other error |
| RequestMap.RequestTable.constructor | src/vps/vfm/map_util.c:10-15 | an empty table, hint at 1 |
| RequestMap.RequestTable.AddEntry | src/vps/vfm/map_util.c:26-67 | the entry goes to the picked slot, which is returned, no other slot changes, the hint moves on |
| RequestMap.RequestTable.RemoveEntry | src/vps/vfm/map_util.c:78-95 | an occupied slot is emptied and becomes the hint; an empty one changes nothing |
| RequestMap.RequestTable.GetEntry | src/vps/vfm/map_util.c:108-130 | what the slot holds |
| RequestMap.PickIsFreeIff | src/vps/vfm/map_util.c:33-56 | an add lands on an empty slot exactly when there is one in 1..1023 |
| RequestMap.RemoveUndoesAddIff | src/vps/vfm/map_util.c:33-91 | removing what was just added restores all slots exactly when the add found a free one |
| RequestMap.FreedSlotIsNext | src/vps/vfm/map_util.c:33-91 | a freed slot is the next one handed out |
| RequestMap.AddedAndRemovedKeepValid | src/vps/vfm/map_util.c:33-91 | slot 0 stays empty and the hint in 1..1024 over every add and remove |
| RequestMap.Conservation | src/vps/vfm/map_util.c:33-91 | over every history, entries present, removed and overwritten add up to entries added |
| RequestMap.FullTableReusesSlotOne | src/vps/vfm/map_util.c:23-56 | on a full table the entry in slot 1 is lost and 1 is returned, not 0 |
| LoginFrames.CreatePacketEx | src/vps/vfm/vfm_create_pk.c:455-523 | the fabric gets the host's frame with command and identifier replaced behind an external tunnel header with the manager's name; the table gets the identifier and addresses it replaced |
| LoginFrames.GeneratedOxid | src/vps/vfm/vfm_create_pk.c:507-511 | the identifier put into a frame is the one read out of it |
| LoginFrames.FdiscChangesThreeBytes | src/vps/vfm/vfm_create_pk.c:489-511 | the fabric's frame is the host's except for the command and the two identifier bytes |
| LoginFrames.FdiscCrossesTheWire | src/vps/vfm/vfm_create_pk.c:471-519 | read from the wire, the sent packet leads to exactly that frame |
| LoginFrames.PrepareFdiscRes | src/vps/vfm/vfm_create_pk.c:658-764 | the host's address, the control header with the host's flags and bit 0, the internal tunnel header, and the descriptors holding the reply under the host's identifier |
| LoginFrames.ResponseIsDescriptors | src/vps/vfm/vfm_create_pk.c:706-751 | the response is a list of two well-formed descriptors |
| LoginFrames.ResponseCrossesTheWire | src/vps/vfm/vfm_create_pk.c:706-758 | a host that reads the response packet finds itself addressed, the control header, the reply under its own identifier, and its assigned address |
| LoginFrames.CreateRejectEls | src/vps/vfm/vfm_create_pk.c:596-650 | the rejection filled into its buffer, byte for byte, and the external tunnel header it is sent behind |
| LoginFrames.RejectCrossesTheWire | src/vps/vfm/vfm_create_pk.c:606-644 | read from the wire, the sent packet leads to exactly that rejection |
| LoginFrames.RejectGoesBack | src/vps/vfm/vfm_create_pk.c:612-641 | the rejection goes to the sender of the request in its exchange, and keeps the other header fields exactly when two of them read the same both ways |
| FcResponse.ProcessFcResponse | src/vps/vfm/sniffer.c:191-290 | table, manager address and the bytes made for the fabric or the host after a frame from the fabric, in every branch |
| FcResponse.ProcessFcElsRes | src/vps/vfm/sniffer.c:598-707 | the frame passed on to the host, with its length and port for the tunnel header |
| FcResponse.HandlerIsThreeSteps | src/vps/vfm/sniffer.c:191-290 | a thread nobody interrupts between look-up and removal does, in any reachable state, what the handler does |
| Exchange.AddSlotKeepsInv | src/vps/vfm/vfm_create_pk.c:501-511 | entering the table on a free slot takes nobody else's slot |
| Exchange.AnswerKeepsInv | src/vps/vfm/sniffer.c:233-277 | answering keeps every slot, every identifier and every earlier response right, and leaves no accepted or rejected host without its response |
| Exchange.FreeKeepsInv | src/vps/vfm/sniffer.c:279-280 | freeing takes away the request's own slot only, and closes only what has been answered |
| Exchange.StepKeepsInv | src/vps/vfm/sniffer.c:191-290 | every step of hosts, fabric and threads keeps slots owned, identifiers distinct, requests each in one place, responses right, and hosts answered before their requests are let go |
| ExchangeLaws.ReachableIsSafe | src/vps/vfm/sniffer.c:191-290 | so does every run in which no add meets a full table |
| ExchangeLaws.OxidsAreDistinct | src/vps/vfm/vfm_create_pk.c:507-511 | any two requests outstanding at the fabric have different identifiers, each with its entry in the table |
| ExchangeLaws.AddKeepsOxidsDistinctIff | src/vps/vfm/map_util.c:35-56 | an add in any reachable state keeps identifiers distinct exactly when a slot is free or slot 1 is one nobody waits for |
| ExchangeLaws.FillTable | src/vps/vfm/map_util.c:33-59 | for every n up to 1023 a run occupies exactly the slots 1 to n |
| ExchangeLaws.FullTableIsReachable | src/vps/vfm/map_util.c:35-56 | 1023 unanswered logins fill the table in a run with nothing left behind, and one more login then makes two outstanding requests share an identifier |
| ExchangeLaws.SlotIsOwned | src/vps/vfm/sniffer.c:229-280 | while a request is outstanding no step of another thread frees or changes its slot, nor the entry a thread holds |
| ExchangeLaws.SlotsAreAccountedFor | src/vps/vfm/map_util.c:33-91 | an occupied slot is in use by exactly one side: a request in flight, or a reply that went past the table |
| ExchangeLaws.LeakedForEver | src/vps/vfm/sniffer.c:209-223 | the slot of a reply that went past the table stays occupied in every later state |
| ExchangeLaws.LeakIsReachable | src/vps/vfm/sniffer.c:208-212 | a run in which the first host's login is rejected leaves its slot behind and the host unanswered |
| ExchangeLaws.LeaksFillTheTable | src/vps/vfm/sniffer.c:208-212 | 1023 rejected logins leave the table full although nothing is in flight |
| ExchangeLaws.ReplyRouting | src/vps/vfm/sniffer.c:208-223 | a reply is matched to its request exactly when it is not to the manager and comes from the login server |
| ExchangeLaws.ThreadsNeverStick | src/vps/vfm/sniffer.c:228-234 | the entry a thread looks up is never missing, its index never out of the table: each thread can always go on |
| ExchangeLaws.ResponsesReachTheirHosts | src/vps/vfm/vfm_create_pk.c:667-758 | every response of every run went to the host that asked, under its own identifier, with the fabric's reply and assigned address; none twice |
| ExchangeLaws.ReplyIsDelivered | src/vps/vfm/sniffer.c:261-280 | a thread that is not interrupted answers a looked-up accepted or rejected host and then frees its slot and no other |
| ExchangeLaws.AnsweredBeforeFreed | src/vps/vfm/sniffer.c:260-280 | over every interleaving: when an accepted or rejected host request comes to be freed, its host already has its response, the removal can go on, and only that slot becomes free |
| ExchangeLaws.ClosedIsAnswered | src/vps/vfm/sniffer.c:260-280 | in every reachable state a host whose exchange is over has had exactly one response, the right one, or none if there was nothing to answer |
| ExchangeLaws.EveryLoginIsSettled | src/vps/vfm/sniffer.c:191-290 | over every run, a login no longer in flight either had its reply pass the table, its host hearing nothing, or is over, its host having had exactly one response if the reply accepted or rejected it and none otherwise |
| TaskQueue.Task.constructor | src/vps/vfm/vfm_queue.c:43-56 | a task of its own bytes and kinds, not yet linked |
| TaskQueue.Queue.constructor | src/vps/vfm/vfm_queue.c:11-14 | the empty queue |
| TaskQueue.Queue.AddTask | src/vps/vfm/vfm_queue.c:28-87 | the packet is copied to the end of the queue, in new memory; all else keeps its place |
| TaskQueue.Queue.GetTask | src/vps/vfm/vfm_queue.c:94-128 | one look at the queue: the oldest task is taken and the rest keep their order, ends and count included, or the queue is empty and stays as it is |
| QueueThreads.StepKeepsInv | src/vps/vfm/vfm_queue.c:58-128 | every atomic step keeps mutual exclusion, order and wake-ups |
| QueueThreads.RunsKeepInv | src/vps/vfm/vfm_queue.c:58-128 | and so does every interleaving of any number of threads |
| QueueThreads.TakenInOrderOnce | src/vps/vfm/vfm_queue.c:66-122 | in every run tasks taken, then tasks queued, are the tasks added, in order, each once |
| QueueThreads.AtMostOneInside | src/vps/vfm/vfm_queue.c:60-81 | never two threads between lock and unlock |
| QueueThreads.NobodySleepsOverATask | src/vps/vfm/vfm_queue.c:80-107 | no reachable state has a task queued, the mutex free and a thread asleep |
| QueueThreads.AtRestOnlyWhenDone | src/vps/vfm/vfm_queue.c:80-128 | a thread that is neither idle nor asleep on an empty queue means some thread can go on |
| QueueThreads.GoingOnEnds | src/vps/vfm/vfm_queue.c:58-128 | operations under way end, broadcasts and wake-ups included, after a number of steps bounded by where the threads stand |
| QueueThreads.EndsAtRest | src/vps/vfm/vfm_queue.c:80-128 | where no thread can go on all are idle or asleep on an empty queue, and if one is still getting every task added has been taken |
| QueueThreads.ComesToRest | src/vps/vfm/vfm_queue.c:58-128 | from every state the invariant allows the operations under way can be brought to rest |
| QueueThreads.SleepsAgain | src/vps/vfm/vfm_queue.c:106-107 | a thread woken to an empty queue sleeps again and has changed nothing |
| QueueThreads.GetsTheOldest | src/vps/vfm/vfm_queue.c:104-128 | a thread that finds a task takes the oldest |
| Inventory.ReadWritten | src/vps/vfm/vfmimpl_unpack.c:48-71 | any list of records, whatever their numbers of children, is read back record by record |
| Inventory.VfabricRoundTrip | src/vps/vfm/vfmapi/vfmapi.c:50-56 | any list of virtual fabrics survives marshalling and unmarshalling, and the declared length is the length |
| Inventory.BridgePayloadIff | src/vps/vfm/vfmapi/vfmapi.c:58-83 | the client is handed the bridge data exactly under the inventory operation, and the size alone under the query operation |
| Inventory.BridgeRoundTripIff | src/vps/vfm/vfmapi/vfmapi.c:57-84 | any list of bridges survives, and the declared length is the length; the query half is about a response that no client function unpacks |
| Inventory.ReplyDoesNotSeeBehind | src/vps/vfm/vfmimpl_unpack.c:24-74 | what is read inside a reply does not depend on the memory behind it |
| InventoryCodec.PackBridgeData | src/vps/vfm/vfmapi_bridge_device.c:13-51 | the buffer grown record by record holds the count and all records |
| InventoryCodec.ProcessVfabric | src/vps/vfm/db/vfmdb_vfabric.c:187-276 | the structure and the adapters found, however many, in a TLV of the length the structure's count asks for; whether they ran past it; and the record it is when there are enough of them |
| InventoryCodec.PopulateVadapterId | src/vps/vfm/db/vfmdb_vfabric.c:21-41 | each adapter written behind the one before, the cursor starting at 0 |
| InventoryCodec.VfmPackData | src/vps/vfm/vfmimpl_pack.c:24-51 | count and TLVs one after another, each as long as it says |
| InventoryCodec.CreateApiTlv | src/vps/vfm/vfmapi_common.c:94-115 | type, length and value at the offset, which moves behind them |
| InventoryCodec.MarshalBridges | src/vps/vfm/vfmapi_impl.c:25-62 | the response fills its allocation exactly: header, size, data |
| InventoryCodec.MarshalVfabrics | src/vps/vfm/vfmapi_impl.c:25-56 | the response fills its allocation exactly: header, count, TLVs |
| InventoryCodec.GetApiTlv | src/vps/vfm/vfmapi_common.c:44-68 | the value at the position, which moves behind it |
| InventoryCodec.UnpackRecords | src/vps/vfm/vfmapi/vfmapi_bridge_device.c:17-34 | the client's loop reads the records the list function reads, none when it would leave the buffer |
| InventoryCodec.UnpackRecord | src/vps/vfm/vfmimpl_unpack.c:50-70 | one record: its tag if any, its structure, as many children as the structure says |
| InventoryCodec.UnmarshalBridges | src/vps/vfm/vfmapi/vfmapi.c:50-84 | what the client makes of a bridge response, for any bytes |
| InventoryCodec.UnmarshalVfabrics | src/vps/vfm/vfmapi/vfmapi.c:50-57 | what the client makes of a virtual fabric response, for any bytes |
| Descriptors.WalkFindsAll | src/vps/vfm/vfm_fip.c:20-55 | any list of descriptors of any types, anywhere in a buffer, is found by stepping over length times 4 |
| Descriptors.DescriptorsRoundTrip | src/vps/vfm/vfm_fip.c:87-188 | and every value of the types 1, 2, 4, 5 and 12 comes back |
| Descriptors.DwordsFilled | src/vps/vfm/vfm_create_pk.c:57-58 | a list takes exactly the dwords its lengths add up to |
| Descriptors.ReadTlv | src/vps/vfm/vfm_fip.c:20-55 | type, length and value at a position |
| Descriptors.TlvDoesNotSeeBehind | src/vps/vfm/vfm_fip.c:20-55 | what is read inside a list does not depend on the memory behind it |
| Descriptors.CreateTlv | src/vps/vfm/vfm_create_pk.c:41-173 | for every type, the cleared value with the data at its place and cut off at its end, and whether the copy ran past it |
| Descriptors.BuildIsFilledIn | src/vps/vfm/vfm_create_pk.c:57-145 | the descriptors of the agreeing types are what is filled in |
| Descriptors.CopyStaysInsideIff | src/vps/vfm/vfm_create_pk.c:49-168 | exactly at which types and lengths the copy stays inside the allocated value |
| Descriptors.FcMapComesBackIff | src/vps/vfm/vfm_fip.c:110-120 | the FC-map descriptor is read right exactly when the map is zero |
| Descriptors.AdvertisementFillsDeclaredIff | src/vps/vfm/vfm_create_pk.c:190-287 | the advertisement fills the declared 12 dwords exactly when built with OPEN_FCOE |
| Descriptors.FcoeVhbaAdvertisement | src/vps/vfm/vfm_create_pk.c:190-287 | in either build the buffer filled through the moving offset holds the descriptor list |
| Descriptors.PutTlv | src/vps/vfm/vfm_create_pk.c:201-209 | one descriptor of any type at the offset, which moves behind it |
| Eoib.EoibRoundTrip | src/vps/vfm/vfm_iboe.c:22-114 | the advertisement fills its 14 dwords, and the reader, which turns byte order twice, gets what was sent |
| Eoib.EoibVnicAdvertisement | src/vps/vfm/vfm_iboe.c:65-114 | the buffer filled through the moving offset holds the three descriptors |
| FipFrames.FillEtherHdr | src/vps/vfm/sender.c:70-116 | addresses, the tag unless zero, FIP type and version at the offset |
| FipFrames.SendPacket | src/vps/vfm/sender.c:164-272 | the bytes handed to the socket are the frame, with the inner source the operation calls for; what becomes of the caller's two headers |
| FipFrames.CtrlInMemory | src/vps/vfm/sender.c:223-229 | turned in place, the header lies in memory as it goes out |
| FipFrames.SentTwiceIsRightIff | src/vps/vfm/sender.c:223-229 | exactly which control headers could be sent a second time |
| FipFrames.FrameReadsBack | src/vps/vfm/sniffer.c:755-817 | every frame with its external flag clear and an understandable tag is read back header by header |
| FipFrames.FrameRoundTripIff | src/vps/vfm/sniffer.c:65-122 | and only with such a tag; the reading stops at the descriptors |
| FipFrames.DescriptorsCrossTheWire | src/vps/vfm/sniffer.c:755-826 | the descriptors a sender puts into a frame are those the receiver walks |
| FipFrames.IdComesBackIff | src/vps/vfm/sniffer.c:325-330 | a tunnel identifier is read as sent exactly when its three bytes read the same both ways |
| FipFrames.TunnelLengthIsRealIff | src/vps/vfm/sender.c:199-201 | the tunnel's length byte is true exactly up to 243 dwords of descriptors |
| FipFrames.FcFrameReadsBack | src/vps/vfm/sender.c:286-356 | a frame with the external flag set leads to its FC frame, whatever that holds |
| PacketReader.EthernetHeader | src/vps/vfm/sniffer.c:65-122 | 20 bytes taken, and stepping back when the packet has no tag |
| PacketReader.ProcessPacket | src/vps/vfm/sniffer.c:719-817 | each way a received packet can go, a local one included, with the position reached |

## Left out

- Sockets, sending and receiving, configuration, logging, signals, allocation failure: input and
  output, not logic.
- InfiniBand verbs, SQLite and the SQL built for it, command prompts, XML and text output: their
  meaning is in libraries that cannot be seen.
- Structure padding and the pointers inside copied structures: a record is its bytes, its count
  of children and the children's bytes.
- Vadapter inventories: built by the database layer, and read by the same loop without children.
- Hex address parsing, octal decoding, XML encoding: small and unrelated to the rest.
- Reading descriptor types 3 and 6 beyond `FcMapComesBackIff`, 11 and the bridge's own: encoder
  and decoder disagree, or only one exists.
- Descriptors.ReadTlv: a descriptor of length zero and a read past the memory given are a missing
  result; the source checks neither. Given more memory, reading is the same function of more
  bytes (`Descriptors.TlvDoesNotSeeBehind`).
- InventoryCodec.GetApiTlv: likewise for lengths (`Inventory.ReplyDoesNotSeeBehind`).
- InventoryCodec.UnpackRecords: likewise for counts.
- InventoryCodec.UnpackRecord: likewise.
- InventoryCodec.UnmarshalBridges: likewise.
- InventoryCodec.UnmarshalVfabrics: likewise.
- Exchange.StepKeepsInv: what the fabric does with a request, and frames that are not logins, are
  outside; one reply per request.
- ExchangeLaws.ReachableIsSafe: runs in which an add meets a full table are excluded here and
  covered by `AddKeepsOxidsDistinctIff`.
- TaskQueue.Queue.GetTask: the wait between two looks is in `QueueThreads`.
- Tokenizer.Tokenize: byte strings only; Python's unicode strings and locales other than C are
  not modelled. Of an exception, its kind and positions are kept, not its text.
- Crc32Sliced.Crc32Sb8: a little-endian host, as the source's unions assume; the prefetches have
  no effect on the result.
