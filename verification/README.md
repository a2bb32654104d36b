# Verified models of the GTA02 factory software

The repository holds the programs and libraries that test and drive an Openmoko GTA02 phone. This
project models six of its components in Dafny, in the form in which they are written, and proves
what they promise.

- **The hierarchical allocator** (`Forest*.dfy`, `TallocLinks.dfy`, `Talloc.dfy`). `Talloc.Heap` is a
  memory of chunks whose next, prev, parent, child and reference links are rewritten in place, one
  assignment at a time. It is proved to represent an ordered forest (`Forest`), on which freeing,
  re-parenting, referencing, stealing and moving are stated and their laws proved. A rank that falls
  along every parent edge and every reference edge witnesses that ownership is acyclic.
- **The AT command engine** (`LineParser.dfy`, `AtEngine.dfy`, `AtAnswers.dfy`, `Gsmd.dfy`,
  `GsmdRuns.dfy`). The byte parser, the queues with their write interest, the wake-up timer and
  cancellation, and the assembly of multi-line answers, as a state machine over any run;
  `Gsmd.Daemon` and `LineParser.Parser` are the classes that the program updates, proved to make the
  same steps, and the daemon is driven through whole runs.
- **The short message codec** (`Septets.dfy`, `SmsPdu.dfy`, `SmsDeliver.dfy`, `SmsEndToEnd.dfy`). Octets
  are bit-vectors. The packing is proved to be that of the standard bit by bit, and the path from the
  sender's text and number to the reader's is closed.
- **The toolkit's damage tracking** (`Damage.dfy`, `Panels.dfy`, `Oltk.dfy`, `OltkRuns.dfy`). Buttons
  change one by one, as a function of the operations performed; a redraw repairs a frame buffer in
  place, and the result is proved equal to a full repaint of those buttons.
- **The touch filters** (`TouchSamples.dfy`, `Pthres.dfy`, `Variance.dfy`, `Dejitter.dfy`,
  `TouchChain.dfy`). Three in-place stream filters and their composition.
- **The graphics command buffer** (`GlamoWords.dfy`, `Glamo.dfy`). Local buffering, the register
  interpreter and the ring.

## Where the code falls short

Three properties one would expect do not hold of the code; the code is modelled as it is, the failing
input is given, and the exact condition is proved.

- A first command whose next line is empty is never sent, and holds up all others, because a write
  of nothing is taken for an error (`AtEngine.EmptyLineStalls`, `AtEngine.StallsIff`,
  `AtEngine.BlockedForever`; `AtAnswers.AlwaysAwake` for the runs in which it cannot happen, and
  `AtAnswers.CanBlockIff` for the texts with which it can).
- A redraw made from inside a click callback, as a popup makes one, leaves the clicked button drawn as
  pressed, because its flag is set only after the callback (`OltkRuns.RedrawDuringClick`;
  `OltkRuns.RedrawInClick` says at exactly which points).
- Filling a rectangle that ends left of the screen fills whole rows (`Damage.SpanExact`).

An empty text is packed, encoded and listed, but then refused by the parser, which asks for one octet
more than such a message has (`SmsEndToEnd.SendAndRead`).

## Model

| member | source | states |
|---|---|---|
| `ForestTheorems.FreeSpares` | gta02-dm1/user_space/gsm/src/gsmd/talloc.c:498-584 | Freeing p, whatever destructors refuse: a chunk below p that is referenced from a context outside p's subtree survives and ends up owned, as a child or by reference, by a context outside the subtree; every ordinary chunk below it survives with an owner in its subtree or outside p's; and every ordinary chunk outside the subtree survives. |
| `ForestTheorems.FreeExact` | gta02-dm1/user_space/gsm/src/gsmd/talloc.c:498-584 | When nothing about to die refuses, freeing an unreferenced p succeeds, the ordinary chunks that go are exactly those not owned through a chain of owners that avoids p, every survivor that had a parent ends up owned by a survivor, and nothing is left under a destroyed parent. |
| `ForestTheorems.FreeSubtree` | gta02-dm1/user_space/gsm/src/gsmd/talloc.c:498-584 | With no reference from outside and no refusing destructor, the chunks that go are exactly p's subtree, chunks referenced only from inside it and handles included. |
| `ForestFree.Free` | gta02-dm1/user_space/gsm/src/gsmd/talloc.c:540-584 | talloc_free on the forest succeeds exactly when p has no reference and its destructor does not refuse; on failure only the head reference is gone; the forest stays well formed, and nothing ranked above p is lost. Its termination measure covers refusing destructors and re-parenting. |
| `ForestFree.Visit` | gta02-dm1/user_space/gsm/src/gsmd/talloc.c:498-530 | One turn of the loop that frees the first child or hands it to its new owner keeps the forest well formed and makes it smaller, or leaves p with fewer children. |
| `ForestFree.FreeKids` | gta02-dm1/user_space/gsm/src/gsmd/talloc.c:498-530 | The whole loop ends with p alive and childless, losing only handles and chunks ranked below p. |
| `ForestFree.AdoptInv` | gta02-dm1/user_space/gsm/src/gsmd/talloc.c:508-529 | A child whose freeing failed can be moved to the holder of its first reference, or to p's parent, without breaking the forest. |
| `ForestGrowth.RankedAcyclic` | gta02-dm1/user_space/gsm/src/gsmd/talloc.c:265-284 | The invariant excludes every cycle of parent edges and reference edges, taken together. |
| `ForestGrowth.AddRefAcyclicIff` | gta02-dm1/user_space/gsm/src/gsmd/talloc.c:265-284 | Adding a reference keeps ownership acyclic exactly when the referenced chunk does not already own the context. |
| `ForestGrowth.StealAcyclic` | gta02-dm1/user_space/gsm/src/gsmd/talloc.c:664-714 | Moving a chunk keeps ownership acyclic exactly when the chunk does not own its new parent. |
| `ForestGrowth.DropOneOwners` | gta02-dm1/user_space/gsm/src/gsmd/talloc.c:291-312 | Giving up a reference takes its holder out of the owners of the target once, and leaves the owners of every other chunk alone. |
| `ForestGrowth.DisownOwners` | gta02-dm1/user_space/gsm/src/gsmd/talloc.c:318-366 | talloc_unlink on a referenced chunk takes exactly one occurrence of the context out of its owners if it is one, changes nothing otherwise, and never loses the chunk. |
| `ForestMoves.StealTotal` | gta02-dm1/user_space/gsm/src/gsmd/talloc.c:664-738 | Stealing, to any new parent that the chunk does not own, moves exactly the subtree's bytes or blocks from the old ancestors to the new ones; a common ancestor's total does not change. |
| `ForestMoves.ReallocTotal` | gta02-dm1/user_space/gsm/src/gsmd/talloc.c:637-738 | A realloc, in place or moving, changes the bytes of the block and of its ancestors by the difference in size, and no other total. |
| `ForestTotals.HookTotal` | gta02-dm1/user_space/gsm/src/gsmd/talloc.c:709-711 | Hooking a root under a parent adds its total to that parent and its ancestors only. |
| `ForestTotals.UnhookTotal` | gta02-dm1/user_space/gsm/src/gsmd/talloc.c:699-707 | Taking a chunk off its parent subtracts its total from that parent and its ancestors only. |
| `ForestRename.RenameInv` | gta02-dm1/user_space/gsm/src/gsmd/talloc.c:637-653 | Renaming a block to the address that realloc returned keeps the forest well formed and acyclic. |
| `ForestRename.MoveRep` | gta02-dm1/user_space/gsm/src/gsmd/talloc.c:637-653 | After the pointer updates of a moving realloc every link that named the old block names the new one, and the memory represents the renamed forest. |
| `ForestRename.OnlyNeighbours` | gta02-dm1/user_space/gsm/src/gsmd/talloc.c:637-653 | Nobody but parent, first child and direct siblings links to a block, so updating these redirects every incoming link. |
| `Talloc.NoDangling` | gta02-dm1/user_space/gsm/src/gsmd/talloc.c:134-169 | No link of a live chunk reaches a freed one; a first child names its parent and has no predecessor, siblings name each other, and the handles of a chunk form a list whose members name each other and their target, which names the first. |
| `TallocLinks.CutRep` | gta02-dm1/user_space/gsm/src/gsmd/talloc.c:148-158 | _TLIST_REMOVE on a sibling list, with the parent pointer handed on, represents the forest without that child. |
| `TallocLinks.PushRep` | gta02-dm1/user_space/gsm/src/gsmd/talloc.c:134-145 | _TLIST_ADD at the head, with the parent pointer moved to the new first child, represents the forest with that child in front. |
| `TallocLinks.RefCutRep` | gta02-dm1/user_space/gsm/src/gsmd/talloc.c:243-254 | Removing a handle from its target's list represents the forest without that reference. |
| `TallocLinks.RefPushRep` | gta02-dm1/user_space/gsm/src/gsmd/talloc.c:265-284 | Adding a handle to its target's list represents the forest with that reference. |
| `Talloc.Heap.ParentChunk` | gta02-dm1/user_space/gsm/src/gsmd/talloc.c:164-169 | Walking to the first sibling finds the true parent of any chunk, or NULL for a root. |
| `Talloc.Heap.TallocFree` | gta02-dm1/user_space/gsm/src/gsmd/talloc.c:540-584 | The recursive, in-place freeing computes ForestFree.Free, returns 0 exactly on success, and returns -1 and changes nothing for NULL. |
| `Talloc.Heap.FreeChildren` | gta02-dm1/user_space/gsm/src/gsmd/talloc.c:498-530 | The in-place loop over the children computes ForestFree.FreeKids while chunks are re-parented under it. |
| `Talloc.Heap.ReferenceDestructor` | gta02-dm1/user_space/gsm/src/gsmd/talloc.c:243-254 | A dying handle leaves exactly its target's list of references. |
| `Talloc.Heap.Alloc` | gta02-dm1/user_space/gsm/src/gsmd/talloc.c:180-221 | A new chunk becomes the first child of its context or a root; when the size is too large or malloc fails, nothing changes. |
| `Talloc.Heap.SetDestructor` | gta02-dm1/user_space/gsm/src/gsmd/talloc.c:226-230 | The chunk has the given destructor, or none for NULL, and nothing else changes. |
| `Talloc.Heap.Reference` | gta02-dm1/user_space/gsm/src/gsmd/talloc.c:265-284 | A reference is a new handle under the context at the head of the target's list, whatever the context; the allocator stays valid, acyclicity included, exactly when the target does not own the context; on failure nothing changes. |
| `Talloc.Heap.Unreference` | gta02-dm1/user_space/gsm/src/gsmd/talloc.c:291-312 | Exactly the first reference held by the context is given up; without one the memory is untouched and the result is -1. |
| `Talloc.Heap.Unlink` | gta02-dm1/user_space/gsm/src/gsmd/talloc.c:318-366 | Each of the four outcomes of talloc_unlink: a reference goes, a holder takes over as parent, the chunk is freed, or nothing happens and -1 is returned. |
| `Talloc.Heap.TallocSteal` | gta02-dm1/user_space/gsm/src/gsmd/talloc.c:664-714 | In place, the chunk becomes the first child of the new context, or a root, and stays where it is when the context is itself; the allocator stays valid exactly when the chunk does not own the context. |
| `Talloc.Heap.Realloc` | gta02-dm1/user_space/gsm/src/gsmd/talloc.c:592-657 | All outcomes: size 0 frees, too large or a referenced block or a failing realloc returns NULL and changes nothing, NULL allocates, and otherwise the block is renamed and resized with every link redirected. |
| `Talloc.Heap.TotalOf` | gta02-dm1/user_space/gsm/src/gsmd/talloc.c:719-753 | The recursion over child and sibling links computes the total of the subtree, in bytes or in blocks. |
| `LineParser.FramingInverse` | gta02-dm1/user_space/gsm/src/gsmd/atcmd.c:68-182 | Lines without CR, short enough, not ">" and not starting with "> ", each framed by CR LF on both sides, are reported exactly once each, unchanged and in order, and the parser ends idle. |
| `LineParser.ChunkedFraming` | gta02-dm1/user_space/gsm/src/gsmd/atcmd.c:162-182 | The same however the bytes are cut into reads. |
| `LineParser.FeedSplit` | gta02-dm1/user_space/gsm/src/gsmd/atcmd.c:162-182 | Parsing two pieces after each other is parsing them together, unless the first overflows the buffer. |
| `LineParser.Parser.ParseByte` | gta02-dm1/user_space/gsm/src/gsmd/atcmd.c:87-160 | The state machine on the real buffer and cursor makes the step of the specification, errors included. |
| `LineParser.Parser.ParseString` | gta02-dm1/user_space/gsm/src/gsmd/atcmd.c:162-182 | The loop over a read makes exactly the specified callbacks, and stops at the first error. |
| `AtEngine.NoLostWakeup` | gta02-dm1/user_space/gsm/src/gsmd/atcmd.c:203-247 | In every state of every run, with time-outs and cancellations: if commands wait and none is being answered, then write interest is set, or the first command is partly sent and waits for its prompt, or the first command begins with an empty line. |
| `AtEngine.StallsIff` | gta02-dm1/user_space/gsm/src/gsmd/atcmd.c:490-534 | A write leaves the engine with commands waiting and neither write interest nor an answer nor a prompt that would help outstanding exactly when nothing is being answered and the next line of the first command is empty, or the one after the line written. |
| `AtEngine.BlockedForever` | gta02-dm1/user_space/gsm/src/gsmd/atcmd.c:490-534 | Such a command blocks the engine for good: in every run from there nothing is written and no command completes any more. |
| `AtEngine.EmptyLineStalls` | gta02-dm1/user_space/gsm/src/gsmd/atcmd.c:490-534 | A concrete run in which that happens: the absence of lost wake-ups fails for a command that is only a line feed. |
| `AtAnswers.AlwaysAwake` | gta02-dm1/user_space/gsm/src/gsmd/atcmd.c:203-247 | When no text submitted in a run holds an empty line, callbacks and cancellations included, then whenever commands wait and none is being answered, write interest is set or the first command is partly sent and waits for its prompt. |
| `AtAnswers.BlocksAlone` | gta02-dm1/user_space/gsm/src/gsmd/atcmd.c:490-534 | A command alone in the queue whose text holds an empty line further on comes to block the engine through prompts and writes alone. |
| `AtAnswers.CanBlockIff` | gta02-dm1/user_space/gsm/src/gsmd/atcmd.c:490-534 | A command submitted to an idle engine can come to block it, in some run that submits no other such text, if and only if some line of its text is empty. |
| `AtAnswers.ServiceEnds` | gta02-dm1/user_space/gsm/src/gsmd/atcmd.c:214-247 | Writes when write interest is set, prompts for a partly sent first command, and final results for busy commands make progress in any order, so that they come to an end, and lose or reorder no command. |
| `AtAnswers.ServiceGoesOn` | gta02-dm1/user_space/gsm/src/gsmd/atcmd.c:457-534 | As long as a command waits or is busy, one of these steps is due. |
| `AtAnswers.EveryCommandServed` | gta02-dm1/user_space/gsm/src/gsmd/atcmd.c:214-247 | Such steps alone send and complete all commands, in their order. |
| `AtEngine.FirstInFirstOut` | gta02-dm1/user_space/gsm/src/gsmd/atcmd.c:465-534 | In every run without cancellation, completed ++ busy ++ pending is the order of submission, wake-up commands included. |
| `AtEngine.ModemReceives` | gta02-dm1/user_space/gsm/src/gsmd/atcmd.c:490-534 | In every such run the bytes written are exactly the lines of the commands in order of submission, each ended by CR, and those begun of the next one. |
| `AtEngine.CancelExact` | gta02-dm1/user_space/gsm/src/gsmd/atcmd.c:656-672 | Cancelling while busy completes exactly the first busy command with "OK", clears its collected answer, and puts the new command before every unsent one. |
| `AtEngine.NothingLost` | gta02-dm1/user_space/gsm/src/gsmd/atcmd.c:581-672 | In every run, with cancellations, every command submitted is completed, busy or pending, exactly once. |
| `AtAnswers.AnswerCallbacks` | gta02-dm1/user_space/gsm/src/gsmd/atcmd.c:249-454 | A command answered by k records with continuation lines and handled unsolicited codes in between, then OK, gets exactly k callbacks in order, each on its own assembled record, then leaves the queue. |
| `AtEngine.NoEarlyResult` | gta02-dm1/user_space/gsm/src/gsmd/atcmd.c:540-565 | In every state of every run the commands in the queues carry -255: a result code comes only with the final result. |
| `AtAnswers.OnlyLastMarked` | gta02-dm1/user_space/gsm/src/gsmd/sms_cb.c:72-87 | After any run, the k callbacks that such an answer makes carry -255 for all records but the last and 0 for the last, so that exactly the last entry of a message list is marked is_last. |
| `AtAnswers.HeadLine` | gta02-dm1/user_space/gsm/src/gsmd/atcmd.c:249-373 | A line that repeats the name of an extended command up to a colon starts a record of its answer, whatever unsolicited codes are known. |
| `AtAnswers.WireToEngine` | gta02-dm1/user_space/gsm/src/gsmd/atcmd.c:162-182 | Framed lines arriving in reads of any size drive the engine exactly as the lines themselves. |
| `AtEngine.RoomKeptIff` | gta02-dm1/user_space/gsm/src/gsmd/atcmd.c:415-424 | A line leaves room in the answer buffer for a terminator exactly when it fits behind what is collected. |
| `GsmdRuns.Drive` | gta02-dm1/user_space/gsm/src/gsmd/atcmd.c:465-534 | The daemon driven through any run whose lines fit: no lost wake-up, no lost command, and without cancellations the order of submission in the queues and on the wire. |
| `Gsmd.Daemon.SelectWrite` | gta02-dm1/user_space/gsm/src/gsmd/atcmd.c:490-534 | The write half on the real queues makes the step WriteReady of the state machine. |
| `Gsmd.Daemon.AtcmdDone` | gta02-dm1/user_space/gsm/src/gsmd/atcmd.c:214-247 | Completion on the real queues and answer buffer makes the step Done, callbacks that submit commands included. |
| `Gsmd.Daemon.ParseLine` | gta02-dm1/user_space/gsm/src/gsmd/atcmd.c:249-454 | The line handler on the real buffer makes the step MlParse for every kind of line, and leaves room in the buffer exactly when the line fits. |
| `Gsmd.Daemon.AtcmdSubmit` | gta02-dm1/user_space/gsm/src/gsmd/atcmd.c:624-652 | Submitting inserts the wake-up command first when its timer is not running, and makes the step Submit. |
| `Gsmd.Daemon.Timeout` | gta02-dm1/user_space/gsm/src/gsmd/atcmd.c:581-610 | The timer discards only a wake-up command, and makes the step WakeTimeout. |
| `Gsmd.Daemon.CancelAtcmd` | gta02-dm1/user_space/gsm/src/gsmd/atcmd.c:656-672 | Cancelling on the real queues makes the step Cancel. |
| `Gsmd.Daemon.AppendLine` | gta02-dm1/user_space/gsm/src/gsmd/atcmd.c:415-424 | A continuation line is added to the answer buffer after a line feed, as far as it fits. |
| `Septets.PackStandard` | gta02-dm1/user_space/gsm/src/libgsmd/libgsmd_sms.c:237-269 | Bit m of character i is bit 7i + m of the packed octets, least significant first: GSM 03.38, section 6.1.2.1.1. |
| `Septets.RoundTrip` | gta02-dm1/user_space/gsm/src/libgsmd/libgsmd_sms.c:237-286 | Unpacking the packed text gives the text back for every 7-bit text without NUL, whatever follows it in memory. |
| `Septets.OutgoingSms.Packing` | gta02-dm1/user_space/gsm/src/libgsmd/libgsmd_sms.c:237-269 | The loop stores exactly the packed text, returns the number of octets that the length implies, and the length is strlen, or one more when strlen mod 8 is 7. |
| `Septets.PackingFits` | gta02-dm1/user_space/gsm/src/libgsmd/libgsmd_sms.c:237-269 | The octets of a text fit the buffer of 141 exactly up to 161 characters. |
| `Septets.Unpacking` | gta02-dm1/user_space/gsm/src/libgsmd/libgsmd_sms.c:271-286 | The loop yields the characters from the first septet after the header to the stored length. |
| `Septets.FirstSeptetExact` | gta02-dm1/user_space/gsm/src/libgsmd/libgsmd_sms.c:275-276 | ((UDHL * 8) + 14) / 7 is the first septet that starts at or after the end of the user data header: GSM 03.40, section 9.2.3.24. |
| `SmsPdu.AlphaExact` | gta02-dm1/user_space/gsm/src/gsmd/sms_pdu.c:64-71 | A semi-octet count of ceil(7k / 4) makes the loop over an alphanumeric address run exactly k times: GSM 03.40, section 9.1.2.5. |
| `SmsPdu.AlphaAddressBack` | gta02-dm1/user_space/gsm/src/gsmd/sms_pdu.c:54-81 | An alphanumeric address is decoded to exactly its k packed characters. |
| `SmsPdu.DigitsBack` | gta02-dm1/user_space/gsm/src/gsmd/sms_pdu.c:75-77 | The digits of a number come back from their semi-octets, for odd and even counts. |
| `SmsPdu.ReadAddress` | gta02-dm1/user_space/gsm/src/gsmd/sms_pdu.c:54-81 | The loops over a decoded address compute AsciiAddress, too long a count included. |
| `SmsPdu.MakeSmsSubmit` | gta02-dm1/user_space/gsm/src/gsmd/sms_pdu.c:251-310 | The encoder returns the number of octets of the message whether or not it prints, and prints exactly their hexadecimal digits. |
| `SmsPdu.ParsePdu` | gta02-dm1/user_space/gsm/src/gsmd/sms_pdu.c:83-247 | The parser computes PduToMsg for submitted and delivered messages, status reports and unknown types, with every length check. |
| `SmsDeliver.ParseDelivery` | gta02-dm1/user_space/gsm/src/gsmd/sms_pdu.c:105-166 | A delivered message laid out as in GSM 03.40, section 9.2.2.1, comes back from behind its service centre: address, header flag, alphabet, length, user data, time stamp, and whether it is about voice mail. |
| `SmsPdu.ParseEncoded` | gta02-dm1/user_space/gsm/src/gsmd/sms_pdu.c:83-310 | The parser inverts the encoder on address, header flag, alphabet, length and user data, for numbers up to 32 digits, default or 8-bit alphabet and 1 to 164 octets. |
| `SmsPdu.ReadHexAll` | gta02-dm1/user_space/gsm/src/gsmd/sms_cb.c:88-96 | Reading hexadecimal inverts printing it, up to the end of the text or a line feed. |
| `SmsPdu.ReadPdu` | gta02-dm1/user_space/gsm/src/gsmd/sms_cb.c:142-150 | The loop that reads a PDU computes ReadHex, malformed digits included. |
| `SmsEndToEnd.NumberToAddr` | gta02-dm1/user_space/gsm/src/libgsmd/libgsmd_sms.c:86-110 | A number is accepted exactly when it fits and has only digits after an optional plus; it keeps its digits, and the plus decides the type of address. |
| `SmsEndToEnd.SmsSend` | gta02-dm1/user_space/gsm/src/libgsmd/libgsmd_sms.c:112-144 | The message handed to the daemon carries the packed data, the length and the address, and a bad number is refused. |
| `SmsEndToEnd.CommandFits` | gta02-dm1/user_space/gsm/src/gsmd/sms_cb.c:333-354 | The whole command, with its length, line feed, hexadecimal message, control-Z and terminator, fits the buffer of 1024 for every message that can be sent. |
| `SmsEndToEnd.BuildCommand` | gta02-dm1/user_space/gsm/src/gsmd/sms_cb.c:333-354 | The two passes over the message build exactly that command. |
| `SmsEndToEnd.SendAndRead` | gta02-dm1/user_space/gsm/src/gsmd/sms_cb.c:112-164 | End to end: pack, encode, print, read, parse and unpack give back text, digits and type of address for every non-empty 7-bit text of up to 160 characters and every number that fits; an empty text is refused by the parser. |
| `Damage.TopDecides` | gta02-dm2/src/oltk/oltk.c:861-894 | A full repaint from the bottom up shows at each point the topmost shown button that covers it. |
| `Damage.Pass` | gta02-dm2/src/oltk/oltk.c:874-894 | Redrawing one button, or leaving it because it is neither flagged nor hit by the invalid rectangle, keeps what is known of every pixel. |
| `Damage.Change` | gta02-dm2/src/oltk/oltk.c:204-265 | A change of a button keeps every pixel right, invalid, or under a flagged or pending button, provided the button ends flagged or pending and a vanished one is in the invalid rectangle. |
| `Damage.SpanExact` | gta02-dm2/src/oltk/oltk.c:910-953 | A row is filled exactly where the rectangle lies if and only if the rectangle does not end left of the screen; otherwise unsigned widths make it fill the whole row. |
| `Oltk.RectIntersect` | gta02-dm2/src/oltk/oltk.c:818-859 | The result says whether the rectangles share a point, and the rectangle left holds exactly the shared points. |
| `Oltk.Oltk.Invalidate` | gta02-dm2/src/oltk/oltk.c:787-816 | The invalid rectangle becomes the given one if it was empty, and otherwise the least rectangle around both. |
| `Oltk.Oltk.Hline` | gta02-dm2/src/oltk/oltk.c:910-953 | For any position and width exactly the pixels of the row that the unsigned arithmetic yields change. |
| `Oltk.Oltk.FillRectangle` | gta02-dm2/src/oltk/oltk.c:910-961 | The same for a rectangle; for one that does not end left of the screen exactly its pixels on the screen change. |
| `Oltk.Oltk.RedrawOne` | gta02-dm2/src/oltk/oltk.c:874-894 | One turn of the redraw loop, with the bounding box growing under it. |
| `Oltk.Oltk.Redraw` | gta02-dm2/src/oltk/oltk.c:861-900 | After a redraw every pixel is as after a full repaint unless its topmost button's click callback still runs; no flag is left; and the rectangle handed to the display contains every pixel that changed. |
| `Oltk.Oltk.ButtonShow` | gta02-dm2/src/oltk/oltk.c:204-214 | Showing and hiding keep the invariant that a redraw relies on. |
| `Oltk.Oltk.ButtonSetName` | gta02-dm2/src/oltk/oltk.c:216-220 | So does a new name, or a new text of a view. |
| `Oltk.Oltk.HandleStart` | gta02-dm2/src/oltk/oltk.c:230-266 | So does a press or release, up to the click callback: exact new state, flag and handled result. |
| `Oltk.Oltk.HandleEnd` | gta02-dm2/src/oltk/oltk.c:252-266 | So does the rest after the callback, whatever happened in it. |
| `OltkRuns.Feed` | gta02-dm2/src/oltk/oltk.c:734-758 | A sample, with a click callback that does anything to the screen, redraws included: the buttons come to what the operations say, and every pixel stays right, invalid, or under a flagged or pending button. |
| `Panels.OfferedIs` | gta02-dm2/src/oltk/oltk.c:741-746 | The loop stops at the topmost button that takes the sample, and changes only the buttons that it passes. |
| `Panels.PressTaken` | gta02-dm2/src/oltk/oltk.c:734-758 | A press makes the topmost button that takes it pressed and remembered; those above it and the one remembered before are released if shown and enabled; nothing else changes. |
| `Panels.ReleaseTaken` | gta02-dm2/src/oltk/oltk.c:734-758 | A release goes to the topmost button that takes it, calls its callback exactly when it was pressed, and leaves no button remembered unless the callback has pressed it again. |
| `Panels.TouchTrackedIff` | gta02-dm2/src/oltk/oltk.c:734-758 | After a sample at most one button is seen pressed, the one remembered: always without a click, and after a click exactly when the callback leaves no other button pressed. |
| `OltkRuns.Run` | gta02-dm2/src/oltk/oltk.c:861-900 | After any sequence of additions, shows, hides, renames, enablings, touches and redraws, inside click callbacks or outside, the buttons are as the operations in their order leave them, and a redraw leaves on every pixel what a full repaint of those buttons would. |
| `OltkRuns.RedrawInClick` | gta02-dm2/src/oltk/oltk.c:247-263 | On any settled screen, a redraw from inside the click callback of a released button is wrong at exactly the points where that button is on top and looks different when pressed. |
| `OltkRuns.RedrawDuringClick` | gta02-dm2/src/oltk/oltk.c:247-263 | The witness: one pixel under one button is still shown pressed. |
| `Pthres.Filtering.Read` | gta02-dm1/user_space/libts/plugins/pthres.c:32-84 | Deleting in place while iterating leaves exactly the filtered samples in front, and an error from below is passed on. |
| `Pthres.FilterCleans` | gta02-dm1/user_space/libts/plugins/pthres.c:32-84 | For pmin >= 1 and across any number of reads, kept presses lie in [pmin, pmax], and a release has pressure 0, follows a press, and has its coordinates. |
| `Pthres.CleanAt` | gta02-dm1/user_space/libts/plugins/pthres.c:32-84 | The same sample by sample: the limits, the press before a release, and its coordinates. |
| `Pthres.CleanIffUnchanged` | gta02-dm1/user_space/libts/plugins/pthres.c:32-84 | Exactly the streams of that shape pass unchanged; so filtering twice is filtering once. |
| `Pthres.FilterConcat` | gta02-dm1/user_space/libts/plugins/pthres.c:32-84 | Cutting the input into reads changes nothing. |
| `Pthres.Layer.ReadOne` | gta02-dm1/user_space/libts/plugins/pthres.c:32-84 | As the layer below, one sample at a time: a dropped sample makes a read answer nothing although more may follow. |
| `TouchSamples.ShapedIff` | gta02-dm1/user_space/libts/plugins/pthres.c:32-84 | The shape means: no two releases are adjacent, and the first sample of all is none. |
| `Variance.Variance.Read` | gta02-dm1/user_space/libts/plugins/variance.c:51-120 | A read returns the next samples of one stream; it stops short only when the layer below answers nothing, and then it holds nothing to submit and no raw sample is left or some have been used up. |
| `Variance.StreamConcat` | gta02-dm1/user_space/libts/plugins/variance.c:51-120 | Cutting the input changes nothing: the filter goes on where it was. |
| `Variance.StreamShaped` | gta02-dm1/user_space/libts/plugins/variance.c:51-120 | On input of the pressure filter's shape the output has it too: first a press, never two releases in a row. |
| `Variance.StreamReleases` | gta02-dm1/user_space/libts/plugins/variance.c:51-120 | No release is lost or duplicated, but for one still to be submitted. |
| `Variance.ReleaseFlushes` | gta02-dm1/user_space/libts/plugins/variance.c:65-78 | After a release the held press and the release come out with nothing more read, and the filter starts over. |
| `Variance.OutlierErased` | gta02-dm1/user_space/libts/plugins/variance.c:89-112 | A lone outlier between close samples leaves no trace: the rest of the stream is as if it had not been read. |
| `Variance.StreamFromInput` | gta02-dm1/user_space/libts/plugins/variance.c:51-120 | Every sample put out is one that was read. |
| `Variance.StreamOrdered` | gta02-dm1/user_space/libts/plugins/variance.c:51-120 | The output is in the order of time of the input. |
| `Dejitter.Dejitter.Read` | gta02-dm1/user_space/libts/plugins/dejitter.c:105-156 | The in-place loop over the ring puts out one smoothed sample for each one read. |
| `Dejitter.RingWrite` | gta02-dm1/user_space/libts/plugins/dejitter.c:128-154 | Writing at the head makes an entry the newest of the last four. |
| `Dejitter.WindowIsLast` | gta02-dm1/user_space/libts/plugins/dejitter.c:113-134 | The ring holds exactly the last samples since the last release or jump, at most four, newest first. |
| `Dejitter.Dejitter.Averaged` | gta02-dm1/user_space/libts/plugins/dejitter.c:80-103 | The walk around the ring computes the weighted averages. |
| `Dejitter.SmoothedWithin` | gta02-dm1/user_space/libts/plugins/dejitter.c:50-103 | Each averaged coordinate and pressure lies between the least and the greatest of the window, and a press stays a press. |
| `Dejitter.StreamLag` | gta02-dm1/user_space/libts/plugins/dejitter.c:50-134 | With the limit d every sample put out, in streams of any length, lags the one read by at most (19d + 15) / 16 on each axis. |
| `Dejitter.LagMet` | gta02-dm1/user_space/libts/plugins/dejitter.c:50-134 | That bound is attained by the fourth sample of a pen that moves at the limit. |
| `Dejitter.StreamKeepsShape` | gta02-dm1/user_space/libts/plugins/dejitter.c:105-156 | Presses stay presses and releases releases, with their times. |
| `TouchChain.ChainShaped` | gta02-dm1/user_space/libts/src/ts_load_module.c:141-164 | Through all three filters an application sees a press first, never two releases in a row, and exactly the releases that the pressure filter found. |
| `TouchChain.ChainOrdered` | gta02-dm1/user_space/libts/src/ts_load_module.c:141-164 | Samples leave the chain in the order of time in which they entered. |
| `TouchChain.Stack.Read` | gta02-dm1/user_space/libts/src/ts_load_module.c:141-164 | Reads of any length through the three stacked filters return consecutive pieces of one stream; a short read with more to come has used up raw samples. |
| `TouchChain.ReadAll` | gta02-dm1/user_space/libts/src/ts_load_module.c:141-164 | Reading until nothing is left yields exactly the output of the chain, whatever the length of the reads. |
| `GlamoWords.EncodeAllBack` | gta02-dm1/user_space/libglamo/dma.h:58-73 | The chip's reading of encoded commands is the commands' meaning: runs expanded, odd padding of any value skipped. |
| `GlamoWords.InterpretConcat` | gta02-dm1/user_space/libglamo/dma.c:78-110 | Whole groups behind each other are carried out behind each other. |
| `GlamoWords.RunAt` | gta02-dm1/user_space/libglamo/dma.c:94-103 | A burst writes its i-th value to the i-th register from its first, modulo 2^16. |
| `Glamo.Manager.MmioFlush` | gta02-dm1/user_space/libglamo/dma.c:78-110 | The flush loop makes exactly the register writes of the buffered words and empties the buffer. |
| `Glamo.Manager.Send` | gta02-dm1/user_space/libglamo/dma.h:46-71 | BEGIN, outputs and END add exactly their group to what is due, whether or not the buffer was flushed first. |
| `Glamo.Transparent` | gta02-dm1/user_space/libglamo/dma.h:46-73 | For any groups that each fit the buffer, flushed whenever it is full, perhaps in between, and at the end, the register writes are those of the unbuffered commands. |
| `Glamo.Manager.CmdqFlush` | gta02-dm1/user_space/libglamo/dma.c:48-76 | The words reach the ring in order: the k-th word ever lands in slot k mod (size / 2), and the write pointer stays in 1 .. size / 2. |
| `Glamo.WriteAddress` | gta02-dm1/user_space/libglamo/dma.c:72-73 | The two registers hold the byte address of the write pointer. |

## Left out

- Talloc.Heap: the context for leak reports is taken to be NULL, as it is unless reports are enabled; names, printing helpers and reports are not modelled.
- Talloc.Heap.CallDestructor: a destructor is a fixed answer without side effects; destructors that use the allocator are not modelled.
- Talloc.Heap.Alloc: addresses and contents of new blocks come from the environment, as do failures; sums of sizes do not overflow.
- LineParser.Parser.ParseByte: for lines that end in LF CR only the step is modelled; that path never calls back, so nothing more is claimed of it.
- Gsmd.Daemon.SelectWrite: every write takes the whole line it is given; short writes are not modelled.
- Gsmd.Daemon.ParseLine: what unsolicited codes mean is an answer of the environment, and their parsers submit no commands; callbacks may. An answer passed to a callback before the last is recorded up to its length, although the program does not terminate it there.
- Gsmd.Daemon.AppendLine: the answer buffer has room for a line feed, which the program writes without testing for it; RoomKeptIff says when that is so after a line. Likewise Gsmd.Daemon.AtcmdDone and Gsmd.Daemon.ParseLine.
- AtAnswers.AnswerCallbacks: a record that fills the answer buffer to the last octet, behind which the program would write the terminator, is not an answer here.
- Septets.OutgoingSms.Packing: texts of more than 161 characters, whose octets do not fit the program's array (PackingFits).
- Gsmd.Daemon.Timeout: time is a step that may happen whenever the timer runs.
- SmsPdu.ParsePdu: of the record that sms_pdu_decode_dcs fills only what decides about voice mail is modelled; message class and compression are not.
- SmsEndToEnd.SendAndRead: the numbers in front of a PDU (index, status, length) are parameters, not parsed from text.
- Oltk.Oltk: drawing is an arbitrary function of a button's look and the point, confined to its rectangle; glyphs, lines and colour tables are not modelled. Setting a colour or a callback flags nothing in the program and is not a step here. Buttons do not lie left of the screen, and coordinates stay within 8192 so that areas fit an int, and allocation does not fail.
- Oltk.Oltk.Hline: a row that starts on the screen and is so wide that its end passes 2^32, which the program would write past the frame buffer. Likewise Oltk.Oltk.FillRectangle.
- Variance.Body: coordinates are unbounded integers; squares that overflow an int are not modelled.
- Dejitter.Average: likewise for the squares and the weighted sums.
- TouchChain.Chain: the raw event readers below and the linear calibration above the three filters are not modelled.
- Glamo.Manager.CmdqFlush: the wait for the chip's read pointer is a step of the environment; the program compares it with the write pointer in another unit, so nothing is claimed about words not yet read.
- The USB bus reconciliation: one more linked list edited in place, of the kind proved for the allocator.
- Device, sysfs, termios, socket and process code, timers, response ranges, and the NMEA and descriptor parsers.
