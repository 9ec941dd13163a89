# ESP-MDF protocols in Dafny

ESP-MDF is mesh middleware for ESP32 devices. This project models the protocols it runs on top of the Wi-Fi and flash
drivers, and proves what they promise. One module per component:

- **Mesh upgrade.** `UpgradeNode` is the agent on a node: status requests, data packets, NOR flash, the counter, the
  bitmap and the stored checkpoint. `UpgradeRoot` is the sending root: status rounds, the AND-merge of the bitmaps, the
  lists of unfinished, requested and successed addresses, and the resend passes. `UpgradeSystem` puts any number of nodes
  and the root on a network that loses, repeats and reorders. `Bitmap`, `Nor` and `UpgradePackets` are what they share;
  `UpgradeNodeSafety`, `UpgradeNodeOutcomes`, `UpgradeResumeLimit` and `UpgradeLateReport` hold the results about a node,
  `UpgradeRun` those about a send run.
- **Firmware flag search.** `Kmp`: the in-place border table and the search.
- **Mesh messages.** `Multicast`: splitting an address list among subnets in place and forwarding it down any finite tree.
  `MeshFragments`: fragmentation and the two reassembly loops. `AddrList`: the in-place removal both use; `Slices`: the cut
  into pieces that all fragmenting senders share.
- **ESP-NOW messages.** `Espnow`: fragments, the receive callback with its magic filter, and the read loop.
- **Core dump transfer.** `Coredump`: the send loop and the receive states.
- **Log in flash.** `FlashLog`: two files as one queue of bytes.
- **HTTP responses.** `ChunkedHttp`: connection slots, chunked writes and the timeout, against a decoder for section 7.1
  of RFC 9112.
- **JSON printing.** `MlinkJson`: the text built in a reallocated buffer, against a parser for RFC 8259.

Where the C code changes state in place, a class or a method over arrays does the same, and its contract says which
function of the old state the new state is. The lemmas are about those functions: invariants over every run, conservation,
round trips, and exact conditions where a property does not hold everywhere.

Eight conditions come from the code itself. They are proved exact or shown by example:

- A stored checkpoint covers bitmap bits 0 to 3967. Counter and bitmap agree on every run exactly for images of at most 3968
  packets (`UpgradeResumeLimit.ResumeLimitIsExact`), and counting the whole image means holding it exactly up to the same
  limit, or with a report interval of 100 (`CompletionLimitIsExact`, `FalseCompletion`).
- A root multicast of ordinary addresses is exact exactly for payloads of 1 to 8095 bytes, lists of at most 1023 addresses
  that do not begin with the zero address, and payload and addresses below 8192 bytes together
  (`Multicast.ExactEverywhereIffFits`).
- The search looks at the first `src_size - target_size + 1` bytes, so it is a full search exactly for targets of one byte
  (`Kmp.FullSearchIffOneByte`).
- Reassembly, in the mesh and over ESP-NOW, is exact unless a message is cut off, its first fragments arriving and then
  nothing of it (`MeshFragments.ExactUnlessCut`, `Espnow.ExactUnlessCut`). What ESP-NOW reads return are whole messages
  unless the queued start of one is continued by the fragments of another (`Espnow.RunReturnsMessages`,
  `Espnow.SeamIsReturned`).
- A fragment that `__mwifi_read` receives twice makes no difference exactly when it is the last of its message; before that
  it loses the message (`MeshFragments.RepeatsHarmlessIffLast`).
- ESP-NOW numbers fragments with eight bits, so messages of more than 60928 bytes are written but never returned
  (`Espnow.ReturnedIffNotTooLong`).
- A log write keeps the log well formed exactly when it fits together with its timestamp (`FlashLog.WellFormedIffFits`,
  `OverrunBreaksQueue`).
- The JSON printer does not extend an empty object or array (`MlinkJson.PackParsesIffNotEmpty`), prints strings that look
  like one as they are (`MlinkJson.StringReadBackIffNotRaw`), and a key of the other kind overwrites the text
  (`MlinkJson.RunParses`).

Where code and documentation disagree the model follows the code: a broadcast upgrade that finds no device leaves with
MDF_OK, because the value set before the jump to the exit is overwritten there; and the completion test between two packets
asks for zero bytes of zero, so completion is credited by the next status round.

Verify with `dafny verify dfyconfig.toml`.

## Model

| member | source | states |
|---|---|---|
| `Bitmap.GetAfterSet` | esp-mdf/components/mupgrade/include/mupgrade.h:61-62 | setting bit k makes bit k read as set and changes no other bit of the array |
| `Bitmap.MarksAfterSet` | esp-mdf/components/mupgrade/include/mupgrade.h:61-62 | as sets: setting bit k adds exactly k to the marked packets |
| `Bitmap.MarksOfMerge` | esp-mdf/components/mupgrade/mupgrade_root.c:291-293 | the bytewise AND of two bitmaps marks exactly the packets both mark |
| `Bitmap.GetAfterMerge` | esp-mdf/components/mupgrade/mupgrade_root.c:291-293 | bit k of the merged bitmap is the conjunction of the two bits |
| `Bitmap.MarksFull` | esp-mdf/components/mupgrade/mupgrade_root.c:307-313 | every byte is 0xFF if and only if every packet is marked, so the final test of a round is a test on sets |
| `Bitmap.MarksOfPrefix` | esp-mdf/components/mupgrade/mupgrade_node.c:206-207 | the bytes a checkpoint stores mark exactly the marked packets below eight times their number |
| `Nor.AboveAfterProgram` | esp-mdf/components/mupgrade/mupgrade_node.c:185-186 | programming a byte, even interrupted, over flash whose bits are all still above it keeps them above; a full write yields the byte, and rewriting it is harmless |
| `UpgradePackets.MarkedSizeAfterMark` | esp-mdf/components/mupgrade/mupgrade_node.c:191-192 | marking a new packet adds its size, with the root's rule for the last packet, to the size of the marked packets |
| `UpgradePackets.MarkedSizeBound` | esp-mdf/components/mupgrade/mupgrade_node.c:191-192 | the size of the marked packets never exceeds the image |
| `UpgradePackets.CompleteIffAllMarked` | esp-mdf/components/mupgrade/mupgrade_root.c:387-389 | the marked packets add up to the image if and only if all ceil(total/1024) of them are marked |
| `UpgradeNode.UpgradeNode.constructor` | esp-mdf/components/mupgrade/mupgrade_node.c:20-21 | a freshly booted device: no configuration, no checkpoint, the partition as it is |
| `UpgradeNode.UpgradeNode.OnStatus` | esp-mdf/components/mupgrade/mupgrade_node.c:23-133 | the whole new state and the reply to a status request: resume under the same name and size, else erase, start anew and store the checkpoint |
| `UpgradeNode.UpgradeNode.Begin` | esp-mdf/components/mupgrade/mupgrade_node.c:50-105 | starting an upgrade resets counter and bitmap, erases the region and stores the checkpoint |
| `UpgradeNode.UpgradeNode.Load` | esp-mdf/components/mupgrade/mupgrade_node.c:31-40 | an absent configuration is restored from the stored checkpoint, if there is one |
| `UpgradeNode.UpgradeNode.Save` | esp-mdf/components/mupgrade/mupgrade_node.c:206-207 | the stored length covers the header and 496 of the 512 bitmap bytes |
| `UpgradeNode.UpgradeNode.OnPacket` | esp-mdf/components/mupgrade/mupgrade_node.c:135-248 | the whole new state, return code and report for a data packet with any 16-bit sequence number: refusal, stop, range check, duplicate, flash failure, count, checkpoint, completion, boot failure |
| `UpgradeNode.UpgradeNode.PartitionWrite` | esp-mdf/components/mupgrade/mupgrade_node.c:185-188 | the flash write programs the packet bytes at sequence times 1024 and reports failure when it does not fit or the driver fails |
| `UpgradeNode.UpgradeNode.Mark` | esp-mdf/components/mupgrade/mupgrade_node.c:191 | the bitmap gains exactly this packet |
| `UpgradeNode.UpgradeNode.SaveWhenDue` | esp-mdf/components/mupgrade/mupgrade_node.c:196-213 | checkpoint and next percentage after a counted packet: stored only when the percentage is hit exactly, skipped ahead when passed |
| `UpgradeNode.UpgradeNode.Count` | esp-mdf/components/mupgrade/mupgrade_node.c:190-245 | after a successful flash write: mark, count, checkpoint when due, and completion when the counter reaches the size |
| `UpgradeNode.UpgradeNode.Stop` | esp-mdf/components/mupgrade/mupgrade_node.c:288-315 | stopping clears counter, bitmap and checkpoint, undoes a pending boot switch, and reports the stop |
| `UpgradeNode.UpgradeNode.Restart` | esp-mdf/components/mupgrade/mupgrade_node.c:31-40 | a power cycle keeps flash and checkpoint only; after a completed upgrade the next update partition is the other one |
| `UpgradeNodeSafety.CompleteIsExact` | esp-mdf/components/mupgrade/mupgrade_node.c:215-245 | when the counter equals the size in a state that keeps the invariant, the partition holds exactly the image on [0, total) |
| `UpgradeNodeSafety.ProgrammedHolds` | esp-mdf/components/mupgrade/mupgrade_node.c:184-188 | a flash write, whole or cut off anywhere, keeps every marked region equal to the image and every other region bitwise above it |
| `UpgradeNodeSafety.StatusKeepsInv` | esp-mdf/components/mupgrade/mupgrade_node.c:23-133 | status requests keep the invariant of flash, bitmap, counter and checkpoint, for every campaign state |
| `UpgradeNodeSafety.WriteKeepsInv` | esp-mdf/components/mupgrade/mupgrade_node.c:135-248 | data packets keep it, whatever the flash driver and boot selector answer |
| `UpgradeNodeSafety.StopKeepsInv` | esp-mdf/components/mupgrade/mupgrade_node.c:288-315 | stopping keeps it |
| `UpgradeNodeSafety.RestartKeepsInv` | esp-mdf/components/mupgrade/mupgrade_node.c:31-48 | restarting keeps it, although the checkpoint lags behind the flash |
| `UpgradeNodeSafety.CrashKeepsInv` | esp-mdf/components/mupgrade/mupgrade_node.c:184-213 | power loss during the flash write, or after the checkpoint is stored, keeps it |
| `UpgradeNodeSafety.ReportIsHonest` | esp-mdf/components/mupgrade/mupgrade_node.c:112-129 | a report that counts the whole image comes from a node that held the exact image when it sent it, and a partial report names only packets held |
| `UpgradeNodeSafety.StepKeepsInv` | esp-mdf/components/mupgrade/mupgrade_node.c:23-315 | every step of a node keeps the invariant |
| `UpgradeNodeSafety.RunKeepsInv` | esp-mdf/components/mupgrade/mupgrade_node.c:23-315 | crash-resume safety: the invariant holds after any run of requests, packets, losses, repeats, stops, restarts and power cuts, for images of at most 3968 packets |
| `UpgradeNodeSafety.ReachesTransitive` | esp-mdf/components/mupgrade/mupgrade_node.c:23-315 | runs can be put one after the other |
| `UpgradeResumeLimit.ResumeLimitIsExact` | esp-mdf/components/mupgrade/mupgrade_node.c:206-207 | for every configured report interval: counter and bitmap agree on every run of every node if and only if the image has at most 3968 packets |
| `UpgradeResumeLimit.FalseCompletion` | esp-mdf/components/mupgrade/mupgrade_node.c:194-215 | from 3969 full packets on and for every full packet p but number 3968: some run makes a node count the whole image without having received p since its last erase, and unless p looks like erased flash the partition then differs from the image |
| `UpgradeResumeLimit.CompletionLimitIsExact` | esp-mdf/components/mupgrade/mupgrade_node.c:206-215 | counting the whole image means the exact image on every run if and only if the image has at most 3968 packets or the report interval is 100, for images with a full packet, number 3968 apart, that does not look like erased flash, and at smaller intervals not for 3969 packets with a short last one |
| `UpgradeLateReport.LateSave` | esp-mdf/components/mupgrade/mupgrade_node.c:196-207 | from 100 percent on, what a checkpoint leaves of a status belongs to a node that holds the exact image |
| `UpgradeLateReport.SoundCounts` | esp-mdf/components/mupgrade/mupgrade_node.c:190-215 | a counted packet completes a status only with the exact image |
| `UpgradeLateReport.LateRun` | esp-mdf/components/mupgrade/mupgrade_node.c:23-315 | with a report interval of 100 every run keeps: a status either agrees with flash and bitmap or belongs to a node that holds the exact image, for images of any size |
| `UpgradeResumeLimit.ReachesResumed` | esp-mdf/components/mupgrade/mupgrade_node.c:194-213 | every image above 3968 packets has a run to a node that has lost the mark of a packet it counts |
| `UpgradeResumeLimit.ResumedDisagrees` | esp-mdf/components/mupgrade/mupgrade_node.c:206-213 | the counter of such a node is ahead of its bitmap |
| `UpgradeResumeLimit.FirstCheckpoint` | esp-mdf/components/mupgrade/mupgrade_node.c:196-213 | nothing is stored below the first report, and the packet that reaches it stores the checkpoint, for images above 3968 packets |
| `UpgradeResumeLimit.SkipsToTheEnd` | esp-mdf/components/mupgrade/mupgrade_node.c:175-215 | a node that counted one full packet twice reaches any remaining packets but p, and then p is still erased |
| `UpgradeResumeLimit.SizeWithout` | esp-mdf/components/mupgrade/mupgrade_node.c:191-215 | without packet p the counted size plus the size of p reaches the image exactly when all others are marked |
| `UpgradeNodeOutcomes.PacketCodes` | esp-mdf/components/mupgrade/mupgrade_node.c:135-248 | which packets are answered with not initialised, invalid argument, download error, failure and MDF_OK, for every node, packet and answer of the drivers |
| `UpgradeNodeOutcomes.RefusedChangesNothing` | esp-mdf/components/mupgrade/mupgrade_node.c:161-182 | a packet that is not accepted changes neither flash nor progress nor checkpoint, except that a stopped node erases its checkpoint and reports the stop |
| `UpgradeNodeOutcomes.BootsIffComplete` | esp-mdf/components/mupgrade/mupgrade_node.c:215-239 | after a packet and a power cycle the device boots the partition it wrote exactly when the boot selector took it, at the packet that completes the image |
| `UpgradeNodeOutcomes.CompletionIsAnnounced` | esp-mdf/components/mupgrade/mupgrade_node.c:215-245 | the completing packet erases the checkpoint and reports completion, or, when the boot selector refuses, stops the upgrade |
| `UpgradeNodeOutcomes.BootsExactImage` | esp-mdf/components/mupgrade/mupgrade_node.c:215-239 | on every run, a device that is set to boot its update partition holds exactly the image there |
| `UpgradeNodeOutcomes.ResumesIffSame` | esp-mdf/components/mupgrade/mupgrade_node.c:42-105 | a request of the same name and size keeps flash, checkpoint and progress; any other starts from erased flash with nothing received, in memory and in store |
| `UpgradeNodeOutcomes.RequestIsAnswered` | esp-mdf/components/mupgrade/mupgrade_node.c:107-131 | the reply to a request: totals, a stop or MDF_OK, and the bitmap exactly while something but not all has been received |
| `UpgradeNodeOutcomes.StopForgetsIff` | esp-mdf/components/mupgrade/mupgrade_node.c:288-309 | after a stop and a power cycle every packet is refused as not initialised if and only if nothing was stored, or the device had heard of the upgrade since it was switched on and could be set back |
| `UpgradeNodeOutcomes.StopTakesEffect` | esp-mdf/components/mupgrade/mupgrade_node.c:299-314 | what a stop does at once: later packets change no flash and get a stop report, and a finished device is set back, or nothing has changed |
| `UpgradeNodeOutcomes.RestartIsNotFinished` | esp-mdf/components/mupgrade/mupgrade_node.c:299-303 | a stop after a power cycle does not look at the boot selector again |
| `UpgradeNodeOutcomes.CheckpointCadence` | esp-mdf/components/mupgrade/mupgrade_node.c:197-213 | after each packet the next percentage is a multiple of the interval ahead of the progress, by one interval at most when it has moved; stored exactly when it is hit |
| `UpgradeNodeOutcomes.RunKeepsStep` | esp-mdf/components/mupgrade/mupgrade_node.c:23-315 | over every run of requests, packets, stops, restarts and power cuts of an image of 100 to 3968 packets the checkpoint stays little behind |
| `UpgradeNodeOutcomes.LosesLessThanInterval` | esp-mdf/components/mupgrade/mupgrade_node.c:194-213 | so a device that loses power in the middle of an upgrade resumes less than one report interval behind, or less than two percent when the interval is one |
| `AddrList.AddrsRemove` | esp-mdf/components/mupgrade/mupgrade_root.c:159-172 | removes the first occurrence in place, keeps the order of the rest, and says whether there was one |
| `AddrList.RemoveFirstAt` | esp-mdf/components/mupgrade/mupgrade_root.c:159-172 | removing at the first matching index is removing the first occurrence |
| `AddrList.RemoveFirstMultiset` | esp-mdf/components/mwifi/mwifi.c:641-654 | one occurrence leaves the multiset of addresses and nothing else does |
| `UpgradeRoot.GiveUpConserves` | esp-mdf/components/mupgrade/mupgrade_root.c:208-210 | giving an address up, or crediting it, keeps unfinished plus successed plus stopped as a multiset |
| `UpgradeRoot.DrainConserves` | esp-mdf/components/mupgrade/mupgrade_root.c:193-217 | no report drained before a round changes that account |
| `UpgradeRoot.CollectConserves` | esp-mdf/components/mupgrade/mupgrade_root.c:246-296 | no reply collected in a round changes it |
| `UpgradeRoot.MidSendConserves` | esp-mdf/components/mupgrade/mupgrade_root.c:424-455 | between packets the account changes if and only if a report of zero bytes of zero comes from an unfinished node that is not requested |
| `UpgradeRoot.MidSendDrops` | esp-mdf/components/mupgrade/mupgrade_root.c:427-432 | such a report takes its sender off the unfinished list and off the account |
| `UpgradeRoot.AddressedGrows` | esp-mdf/components/mupgrade/mupgrade_root.c:462-478 | the choice of destination: every requested address is served by a data packet, except exactly a requested root while a run to broadcast has fewer than two successes, or a run to any has one |
| `UpgradeRoot.MergedIsEverywhere` | esp-mdf/components/mupgrade/mupgrade_root.c:290-294 | a packet that survives the AND-merge is in the report of every node heard in the round |
| `UpgradeRoot.EverywhereIsMerged` | esp-mdf/components/mupgrade/mupgrade_root.c:223-294 | a packet in every report heard survives the merge |
| `UpgradeRoot.CollectKeepsRoundInv` | esp-mdf/components/mupgrade/mupgrade_root.c:237-297 | while replies come in: requested and progress are what the replies heard say, and every unfinished address is still asked or requested |
| `UpgradeRoot.HeardMissesAPacket` | esp-mdf/components/mupgrade/mupgrade_root.c:267-294 | after any incomplete reply the merged progress is not full |
| `UpgradeRoot.QuietRoundIsFinished` | esp-mdf/components/mupgrade/mupgrade_root.c:300-316 | a round in which all answered and progress stayed full leaves nobody unfinished |
| `UpgradeRoot.DrainKeepsRun` | esp-mdf/components/mupgrade/mupgrade_root.c:193-217 | account and evidence (who reported completion, who stopped) hold after each drained report |
| `UpgradeRoot.CollectKeepsRun` | esp-mdf/components/mupgrade/mupgrade_root.c:237-297 | and after each collected reply |
| `UpgradeRoot.MidSendKeepsRun` | esp-mdf/components/mupgrade/mupgrade_root.c:424-455 | and after each report between packets, which leaves the merged progress alone |
| `UpgradeRoot.MidSendRunShrinks` | esp-mdf/components/mupgrade/mupgrade_root.c:424-455 | between packets the request list only shrinks, nobody is credited, and what the round heard stays, unless a report tells zero bytes of zero |
| `UpgradeRoot.SendRunAccounts` | esp-mdf/components/mupgrade/mupgrade_root.c:488-490 | MDF_OK: every target, as often as listed, reported completion or stopped |
| `UpgradeRoot.UpgradeRoot.OnDrain` | esp-mdf/components/mupgrade/mupgrade_root.c:194-212 | one drained report on the in-place lists does what the value model says |
| `UpgradeRoot.UpgradeRoot.OnCollect` | esp-mdf/components/mupgrade/mupgrade_root.c:246-296 | one collected reply on the in-place lists and bitmap does what the value model says |
| `UpgradeRoot.UpgradeRoot.OnMidSend` | esp-mdf/components/mupgrade/mupgrade_root.c:425-450 | one report between packets does what the value model says, including the test for zero bytes of zero |
| `UpgradeRoot.UpgradeRoot.MergeProgress` | esp-mdf/components/mupgrade/mupgrade_root.c:291-293 | the in-place loop leaves the bytewise AND |
| `UpgradeRoot.UpgradeRoot.DrainQueue` | esp-mdf/components/mupgrade/mupgrade_root.c:193-217 | the exact state, queue position and early end of the drain loop, and the run invariant |
| `UpgradeRoot.UpgradeRoot.CollectReplies` | esp-mdf/components/mupgrade/mupgrade_root.c:237-297 | the exact state and queue position of the collecting loop, and both invariants |
| `UpgradeRoot.UpgradeRoot.AskAndCollect` | esp-mdf/components/mupgrade/mupgrade_root.c:231-298 | at most three requests, each exactly to those still asked, and the exact state after the replies |
| `UpgradeRoot.UpgradeRoot.PrepareRound` | esp-mdf/components/mupgrade/mupgrade_root.c:187-223 | the exact state after the reports already queued and the start of collecting, and whether nobody is left |
| `UpgradeRoot.UpgradeRoot.RequestStatus` | esp-mdf/components/mupgrade/mupgrade_root.c:174-317 | a whole status round: exact final state, exact requests sent, and when each of the three codes is returned; MDF_OK implies unfinished is empty if all reports are ones a node of the campaign can send; otherwise the round invariant holds |
| `UpgradeRoot.UpgradeRoot.DrainMidSend` | esp-mdf/components/mupgrade/mupgrade_root.c:424-455 | the exact state, position and early end of the loop between packets |
| `UpgradeRoot.UpgradeRoot.ReadPacket` | esp-mdf/components/mupgrade/mupgrade_root.c:411-418 | packet k with the size rule of the last packet carries the bytes of the image at k times 1024 |
| `UpgradeRoot.UpgradeRoot.SendPacket` | esp-mdf/components/mupgrade/mupgrade_root.c:411-478 | the reports that have come in are handled, then packet k goes to the current destination unless nobody is left |
| `UpgradeRoot.UpgradeRoot.SendIfMissing` | esp-mdf/components/mupgrade/mupgrade_root.c:411-484 | packet k goes out if the merged progress lacks it, and the pass so far keeps its contract; the run is over only when nobody unfinished is left or flash cannot be read |
| `UpgradeRoot.UpgradeRoot.SendMissing` | esp-mdf/components/mupgrade/mupgrade_root.c:410-485 | a pass sends genuine packets only, none that everybody reported, every one up to its end that somebody misses, each serving all who are still requested, except exactly a root that is left out, to the whole mesh or to requested devices only; and it ends before the last packet only for one of four reasons |
| `UpgradeRoot.UpgradeRoot.SendRound` | esp-mdf/components/mupgrade/mupgrade_root.c:395-485 | a round is the exact status round and, unless that settles everything, the pass over the packets outside the merge of the replies heard; its messages are exactly those two |
| `UpgradeRoot.UpgradeRoot.SendRounds` | esp-mdf/components/mupgrade/mupgrade_root.c:395-486 | the run is a chain of such rounds that goes on until nobody is left, all rounds are used up, it is told to stop, or a round was the last one; its messages are exactly theirs |
| `UpgradeRoot.UpgradeRoot.ListTargets` | esp-mdf/components/mupgrade/mupgrade_root.c:360-385 | the initial targets for a list, for any and for broadcast; broadcast goes on only with 1 to 2048 targets |
| `UpgradeRoot.UpgradeRoot.FirmwareSend` | esp-mdf/components/mupgrade/mupgrade_root.c:333-514 | argument errors, firmware that is not initialised or not fully downloaded, the whole run as a chain of rounds with exactly their messages, conservation of the targets for any reports but zero bytes of zero and partial ones without a bitmap, and MDF_OK exactly when nobody is left unfinished |
| `UpgradeRun.TargetsListed` | esp-mdf/components/mupgrade/mupgrade_root.c:360-385 | the targets as a multiset: the list, the routing table, or the table without the root |
| `UpgradeRun.StopIsGivenUp` | esp-mdf/components/mupgrade/mupgrade_root.c:208-254 | a report of a stop takes its sender off every list, before, during and after the requests |
| `UpgradeRun.DrainReads` | esp-mdf/components/mupgrade/mupgrade_root.c:193-217 | the reports queued before a round are read up to a pause, or until nobody is left |
| `UpgradeRun.DrainHeeds` | esp-mdf/components/mupgrade/mupgrade_root.c:193-217 | and nobody who has completed or stopped by then is waited for any more |
| `UpgradeRun.MidSendReads` | esp-mdf/components/mupgrade/mupgrade_root.c:424-455 | the reports that have come in between two packets are read up to a pause, or until nobody is left |
| `UpgradeRun.MidSendHeeds` | esp-mdf/components/mupgrade/mupgrade_root.c:446-449 | and nothing more is sent to a node that has stopped by then |
| `UpgradeRun.CollectEnds` | esp-mdf/components/mupgrade/mupgrade_root.c:237-297 | replies are read until everyone asked has replied or none comes in time |
| `UpgradeRun.AsksUntilAnswered` | esp-mdf/components/mupgrade/mupgrade_root.c:231-298 | the first request goes to everyone asked, later ones to fewer, and there are as many as allowed unless everyone has replied |
| `UpgradeRun.RoundAsks` | esp-mdf/components/mupgrade/mupgrade_root.c:231-298 | a round asks exactly three times unless everyone has replied or the queued reports settle everything |
| `UpgradeRun.AllCredited` | esp-mdf/components/mupgrade/mupgrade_root.c:237-297 | when everyone asked replies that all is there, everyone is credited, in the order of the replies, and nothing counts as missing |
| `UpgradeRun.UndisturbedRunEnds` | esp-mdf/components/mupgrade/mupgrade_root.c:395-486 | a run that nobody stops and whose flash can be read ends only with nobody unfinished, or after the last allowed round |
| `UpgradeRun.UndisturbedPassIsFull` | esp-mdf/components/mupgrade/mupgrade_root.c:395-485 | in each of its rounds that the replies do not settle, every packet that not everyone heard has reported is among the messages sent, unless nobody requested or nobody unfinished is left |
| `UpgradeRun.FirstIsRequest` | esp-mdf/components/mupgrade/mupgrade_root.c:395-402 | its first message is a status request to everyone whom the reports already queued leave unfinished; if they leave nobody, it sends nothing and is done |
| `UpgradeRun.PromptRunFinishes` | esp-mdf/components/mupgrade/mupgrade_root.c:333-490 | a run whose targets all reply completion to the first request sends that request only, and ends with exactly the targets credited |
| `UpgradeSystem.UpgradeIsSafe` | esp-mdf/components/mupgrade/mupgrade_root.c:193-208 | end-to-end safety: after any run of root and nodes over a network that loses, repeats and reorders, every address in successed belongs to a node that held exactly the image when it reported, and no target is lost from the account |
| `UpgradeSystem.RunKeepsSystemInv` | esp-mdf/components/mupgrade/mupgrade_root.c:275-288 | the invariant behind it: honest reports, genuine packets in the air, all nodes within their invariant |
| `UpgradeSystem.StepIsHonest` | esp-mdf/components/mupgrade/mupgrade_node.c:112-129 | every report a step of a node adds to the log is honest and coherent |
| `UpgradeSystem.SendRunIsSafe` | esp-mdf/components/mupgrade/mupgrade_root.c:333-514 | a send run that reads only logged reports meets its precondition and credits only nodes that held the exact image |
| `UpgradeSystem.LosslessRound` | esp-mdf/components/mupgrade/mupgrade_root.c:222-298 | whatever the starting bitmaps, a node heard in a round that then receives the packets outside the merge, in any order and with repeats, holds the exact image, is set to boot it, and reports completion |
| `UpgradeSystem.FullPassCompletes` | esp-mdf/components/mupgrade/mupgrade_root.c:395-486 | what a full pass of the root sends is enough for that |
| `UpgradeSystem.DeliveriesMark` | esp-mdf/components/mupgrade/mupgrade_node.c:178-192 | delivered packets are all marked and nothing marked is lost |
| `UpgradeSystem.CompletionIsCredited` | esp-mdf/components/mupgrade/mupgrade_root.c:196-208 | a completion report moves its sender from unfinished to successed, while draining and while collecting |
| `Kmp.KmpNext` | esp-mdf/components/mupgrade/mupgrade_check.c:154-169 | next[i] is the longest proper border of target[0..i] for every i, the rest of the array is untouched, and the fallback steps are fewer than the target length |
| `Kmp.KmpFind` | esp-mdf/components/mupgrade/mupgrade_check.c:171-189 | found if and only if the target occurs within the first src_size - target_size + 1 bytes; the fallback steps are bounded by the outer steps |
| `Kmp.FirmwareCheck` | esp-mdf/components/mupgrade/mupgrade_check.c:191-215 | both together on a partition and a flag of at most 32 bytes |
| `Kmp.PrefixSearchExact` | esp-mdf/components/mupgrade/mupgrade_check.c:174 | which occurrences the search sees: those that end within that prefix |
| `Kmp.FlagAtTheEndIsMissed` | esp-mdf/components/mupgrade/mupgrade_check.c:174 | a target of at least two bytes is not found in itself, although it occurs there |
| `Kmp.FullSearchIffOneByte` | esp-mdf/components/mupgrade/mupgrade_check.c:171-189 | the search agrees with a search of the whole source on every source if and only if the target has one byte |
| `Kmp.PaddedSearchIsFull` | esp-mdf/components/mupgrade/mupgrade_check.c:171-189 | and on a source whose byte just behind the searched prefix is not in the target |
| `Kmp.BorderOfBorder` | esp-mdf/components/mupgrade/mupgrade_check.c:158-160 | below a border, the borders of the whole are exactly the borders of that border |
| `Kmp.FallBack` | esp-mdf/components/mupgrade/mupgrade_check.c:158-160 | falling back skips no candidate border |
| `Kmp.Settle` | esp-mdf/components/mupgrade/mupgrade_check.c:162-166 | after the fallbacks the extended border is the longest, or there is none |
| `Kmp.Advance` | esp-mdf/components/mupgrade/mupgrade_check.c:175-185 | the same for the search: the state is the longest prefix of the target that ends here, and no occurrence is passed over |
| `AddrList.RemoveAt` | esp-mdf/components/mwifi/mwifi.c:641-654 | the found case in place: the count drops by one and the tail moves down |
| `Multicast.UnflattenFlatten` | esp-mdf/components/mwifi/mwifi.c:1078-1080 | addresses put before a payload are read back, and the payload starts behind them |
| `Multicast.PickInPlace` | esp-mdf/components/mwifi/mwifi.c:762-790 | in place: the listed addresses of a subnet go to the transmit buffer, as far as its 10-bit counter holds them, and the rest of the list stays in order |
| `Multicast.PickConserves` | esp-mdf/components/mwifi/mwifi.c:762-790 | picking neither drops nor copies an address |
| `Multicast.SendToChild` | esp-mdf/components/mwifi/mwifi.c:742-808 | one turn of the child loop: what is sent and what is left of the list |
| `Multicast.SendToListed` | esp-mdf/components/mwifi/mwifi.c:742-815 | the whole child loop and the direct sends to the rest |
| `Multicast.SendToAll` | esp-mdf/components/mwifi/mwifi.c:731-760 | a message to all goes once to every child with the all mark |
| `Multicast.SendToPeers` | esp-mdf/components/mwifi/mwifi.c:816-836 | one direct message to every address no child took, with a header that tells it to keep a copy and to forward nothing |
| `Multicast.TransmitWrite` | esp-mdf/components/mwifi/mwifi.c:719-839 | the exact sends of a node for a list, for any and for broadcast, at the root and elsewhere |
| `Multicast.SpreadAfterPick` | esp-mdf/components/mwifi/mwifi.c:762-790 | the deliveries owed to a list are those owed to what is picked and to what is left |
| `Multicast.ListedExactly` | esp-mdf/components/mwifi/mwifi.c:742-836 | from child i on, the deliveries that follow from a list are one per listed entry |
| `Multicast.ForwardedExactly` | esp-mdf/components/mwifi/mwifi.c:1068-1091 | by induction on the tree: a node told to keep a copy or not and to forward to a list delivers exactly that |
| `Multicast.MulticastExact` | esp-mdf/components/mwifi/mwifi.c:1166-1283 | over any finite tree, any subnet tables, stale or not, and any list of ordinary addresses with repeats that passes the parameter checks and fits the header, the deliveries of a root multicast, each made by the read of the node it reaches as the header tells it, are exactly one per listed entry with the exact payload |
| `Multicast.ExactEverywhereIffFits` | esp-mdf/components/mwifi/mwifi.c:1170-1283 | however oversized messages are cut and whatever follows from direct messages that are to be forwarded, that holds on all trees and tables if and only if the parameter checks pass (nonzero first address, payload of 1 to 8095 bytes), the list has at most 1023 entries, and payload plus six bytes an entry stay below 8192 |
| `Multicast.OneSubnetShare` | esp-mdf/components/mwifi/mwifi.c:762-807 | what one child with an ordinary address delivers of a list when the 10-bit counter wraps, and that all depends on the oversized message when the 13-bit size does |
| `Multicast.OneSubnetFails` | esp-mdf/components/mwifi/mwifi.c:762-807 | a multicast that does not fit fails there, however oversized messages are cut |
| `Multicast.LeafCuts` | esp-mdf/components/mwifi/mwifi.c:1002-1091 | what a leaf makes of any message it could have read from the fragments of an oversized one is short of the whole payload |
| `Multicast.AnyCoversAll` | esp-mdf/components/mwifi/mwifi.c:731-836 | a multicast to any is delivered once at every node, the root included, and rejected exactly for payloads outside 1 to 8095 bytes |
| `Multicast.BroadcastCoversAllButRoot` | esp-mdf/components/mwifi/mwifi.c:731-808 | a multicast to broadcast is delivered once at every node but the root, and rejected exactly for payloads outside 1 to 8095 bytes |
| `MeshFragments.SubcontractWrite` | esp-mdf/components/mwifi/mwifi.c:659-714 | the send loop emits the fragments of the message: consecutive slices, sequence modulo 8, split total size |
| `MeshFragments.HeaderTellsSize` | esp-mdf/components/mwifi/mwifi.c:665-667 | the header of a fragment tells the size modulo 8192, so exactly the sizes below 8192 |
| `MeshFragments.OversizedIsCut` | esp-mdf/components/mwifi/mwifi.c:1002-1059 | from 8192 bytes on everything that either read delivers from the fragments of a message is shorter than the message |
| `MeshFragments.TakesNext` | esp-mdf/components/mwifi/mwifi.c:1036-1057 | the next fragment of a message received so far without loss fits the room offered and is taken, and the last one ends the read with the exact message |
| `MeshFragments.MeshReader.Read` | esp-mdf/components/mwifi/mwifi.c:1002-1059 | the in-place loop of one node read equals its step function on every fragment stream |
| `MeshFragments.MeshReader.RootRead` | esp-mdf/components/mwifi/mwifi.c:1330-1374 | the same for the root |
| `MeshFragments.ReadAllByCalls` | esp-mdf/components/mwifi/mwifi.c:1002-1059 | repeated calls deliver one message after the other of the same stream |
| `MeshFragments.RefusesRest` | esp-mdf/components/mwifi/mwifi.c:1032-1041 | once a fragment has been missed, the rest of the message is refused and the reader ends idle |
| `MeshFragments.ReceivesMessage` | esp-mdf/components/mwifi/mwifi.c:1002-1059 | unless a message is cut off, it is delivered if and only if all of it arrives, exactly, and the reader ends idle |
| `MeshFragments.ReassemblyExact` | esp-mdf/components/mwifi/mwifi.c:1330-1374 | from any ordered stream with any losses in which no message before the last is cut off (its first fragments arrive and then nothing of it), both reads deliver exactly the messages that arrived in full, in order and never a mixture, and every fragment fits the room offered |
| `MeshFragments.ExactUnlessCut` | esp-mdf/components/mwifi/mwifi.c:1002-1059 | a message leaves every continuation exact if and only if it is not cut off, for both reads |
| `MeshFragments.CutIsHeld` | esp-mdf/components/mwifi/mwifi.c:1002-1059 | a message that is cut off leaves its first fragments with the reader |
| `MeshFragments.CutMessageMixes` | esp-mdf/components/mwifi/mwifi.c:1032-1059 | these are then delivered together with the last fragment of a message whose earlier ones were lost |
| `MeshFragments.WholeAfterCut` | esp-mdf/components/mwifi/mwifi.c:1032-1059 | a whole message after one that was cut off, if its first fragment fits: of a single fragment it is delivered by __mwifi_read and held back by __mwifi_root_read, longer ones are lost to both |
| `MeshFragments.ArrivingInFull` | esp-mdf/components/mwifi/mwifi.c:659-714 | without losses the stream is what the send loop sent |
| `MeshFragments.RefusesRepeats` | esp-mdf/components/mwifi/mwifi.c:1032-1053 | once a fragment has been missed, later ones are refused, repeated or not |
| `MeshFragments.RepeatLoses` | esp-mdf/components/mwifi/mwifi.c:1032-1053 | a repeat of any but the last fragment is taken for a gap before the filter sees it |
| `MeshFragments.RepeatsExact` | esp-mdf/components/mwifi/mwifi.c:1032-1059 | with any losses, and any arriving fragments repeated directly behind themselves, __mwifi_read delivers exactly the messages that arrive in full and of which nothing but the last fragment is repeated, once each |
| `MeshFragments.RepeatsHarmlessIffLast` | esp-mdf/components/mwifi/mwifi.c:1046-1053 | so repeats make no difference if and only if of every message that arrives in full nothing but the last fragment is repeated |
| `MeshFragments.RootDeliversRepeats` | esp-mdf/components/mwifi/mwifi.c:1330-1374 | __mwifi_root_read, without the filter, delivers a message of one fragment as often as it is received |
| `MeshFragments.RootMixesRepeats` | esp-mdf/components/mwifi/mwifi.c:1357-1373 | and delivers the first of two full fragments, received three times, as a message made of it twice |
| `Espnow.Write` | esp-mdf/components/mespnow/mespnow.c:239-281 | the send loop emits the fragments of a message with one magic each |
| `Espnow.EspNow.RecvCb` | esp-mdf/components/mespnow/mespnow.c:97-161 | one arrival: repeated magic, checksum, full queue, and no other pipe changes |
| `Espnow.EspNow.Read` | esp-mdf/components/mespnow/mespnow.c:299-377 | one read: exact result and queue, and no other pipe changes |
| `Espnow.ReadReturnsOneMessage` | esp-mdf/components/mespnow/mespnow.c:320-376 | from a queue in sending order, whatever has been lost, in which no unbroken start of a message (fragments 0 to k) is followed by fragment k + 1 of a later one, a read returns MDF_OK only with all of exactly one message, whose fragments are the last it consumed |
| `Espnow.GatherFacts` | esp-mdf/components/mespnow/mespnow.c:340-370 | the same for the gathering loop in the middle of a message |
| `Espnow.ArrivalKeepsInv` | esp-mdf/components/mespnow/mespnow.c:97-161 | repeats are filtered and losses of any fragments leave gaps, but the queue stays in order |
| `Espnow.ReadKeepsInv` | esp-mdf/components/mespnow/mespnow.c:299-377 | a read keeps the queue orderly and returns a later message than any before |
| `Espnow.RunReturnsMessages` | esp-mdf/components/mespnow/mespnow.c:97-376 | over any run of arrivals, repeats, losses and reads in which no queued start of a message is continued by another one, what is returned is a subsequence of the messages sent, none twice |
| `Espnow.ReadWholeMessage` | esp-mdf/components/mespnow/mespnow.c:320-376 | an unbroken message is returned if it is smaller than the buffer and passed over otherwise |
| `Espnow.ReassemblyExact` | esp-mdf/components/mespnow/mespnow.c:320-376 | whatever has been lost, as long as no message before the last that fits is cut off, reading until the queue is empty returns exactly the messages that have arrived in full and fit, in order |
| `Espnow.ExactUnlessCut` | esp-mdf/components/mespnow/mespnow.c:320-376 | queued into an empty pipe, a message leaves every continuation exact if and only if it is not cut off after some but not all of its fragments, or does not fit the buffer |
| `Espnow.ArrivalsReadExactly` | esp-mdf/components/mespnow/mespnow.c:97-376 | the same from the receive callback on, for fragments whose magics change |
| `Espnow.CutLosesNext` | esp-mdf/components/mespnow/mespnow.c:349-376 | after a message that has been cut off the next one is lost although it arrives in full |
| `Espnow.GathersArriving` | esp-mdf/components/mespnow/mespnow.c:349-373 | a message that is not cut off is returned exactly when all of it has arrived, and leaves nothing in the way of the next |
| `Espnow.SeamIsReturned` | esp-mdf/components/mespnow/mespnow.c:334-376 | a start of a message continued by another one is not noticed: the two parts are returned as one message if and only if the second message is at least as long as the first |
| `Espnow.NoLossIsFifo` | esp-mdf/components/mespnow/mespnow.c:97-376 | over any run of messages that arrive whole and reads between them, what has been returned and what is left in the queue are all messages that fit, in order |
| `Espnow.NoLossReturnsAll` | esp-mdf/components/mespnow/mespnow.c:97-376 | as many further reads as messages were sent then return everything that fits and was not returned before |
| `Espnow.EarlyReadLoses` | esp-mdf/components/mespnow/mespnow.c:349-357 | a read while a message that fits is still arriving times out and loses it |
| `Espnow.ReadsAtMost` | esp-mdf/components/mespnow/mespnow.c:349-376 | whatever is in the queue, no read returns more than 256 fragments |
| `Espnow.ReturnedIffNotTooLong` | esp-mdf/components/mespnow/mespnow.c:236-281 | a message that arrives in full, at a reader with room for it, is returned if and only if it has at most 60928 bytes |
| `FlashLog.AppendQueues` | esp-mdf/components/mdebug/mdebug_flash.c:154-166 | appending within a file adds the bytes at the end of the unread queue |
| `FlashLog.RotateDropsOldest` | esp-mdf/components/mdebug/mdebug_flash.c:120-127 | rotation drops exactly the unread bytes of the older file, the oldest there are |
| `FlashLog.WriteQueues` | esp-mdf/components/mdebug/mdebug_flash.c:101-179 | a write adds timestamp and data behind what stays |
| `FlashLog.DropsNothingIff` | esp-mdf/components/mdebug/mdebug_flash.c:116-128 | a write drops nothing unread if and only if its data fits behind what is in the current file, or the older file has been read out |
| `FlashLog.ReadFileTakesPrefix` | esp-mdf/components/mdebug/mdebug_flash.c:199-219 | one turn returns and removes the first unread bytes of a file and leaves the other alone |
| `FlashLog.ReadTakesPrefix` | esp-mdf/components/mdebug/mdebug_flash.c:199-222 | a read returns and removes the first bytes of the queue, as many as there are and fit |
| `FlashLog.WriteStaysSuffix` | esp-mdf/components/mdebug/mdebug_flash.c:101-179 | after a write the unread bytes are a suffix of everything written |
| `FlashLog.WellFormedIffFits` | esp-mdf/components/mdebug/mdebug_flash.c:120-166 | after a write the log is well formed if and only if timestamp and data fit the file together, which the code does not test |
| `FlashLog.OverrunHitsOtherFile` | esp-mdf/components/mdebug/mdebug_flash.c:154-166 | otherwise a write to the first file cuts down the bytes at the start of the second one |
| `FlashLog.OverrunBreaksQueue` | esp-mdf/components/mdebug/mdebug_flash.c:120-166 | if it cuts down the first unread byte there, what is read afterwards is not the newest of what has been written |
| `FlashLog.QueueCanBreak` | esp-mdf/components/mdebug/mdebug_flash.c:120-166 | a log and a write for which that happens |
| `FlashLog.RunIsQueue` | esp-mdf/components/mdebug/mdebug_flash.c:101-222 | over any run of writes that fit and reads, the unread bytes are a suffix of the history |
| `FlashLog.RunIsFifo` | esp-mdf/components/mdebug/mdebug_flash.c:101-222 | if nothing unread was rotated away, reads return everything written in order, up to what is still unread |
| `FlashLog.FlashLog.Append` | esp-mdf/components/mdebug/mdebug_flash.c:164-166 | the in-place write programs the bytes and moves the size |
| `FlashLog.FlashLog.PartitionWrite` | esp-mdf/components/mdebug/mdebug_flash.c:164 | programming in place only clears bits |
| `FlashLog.FlashLog.Rotate` | esp-mdf/components/mdebug/mdebug_flash.c:120-127 | the in-place rotation: index, sizes and erased range |
| `FlashLog.FlashLog.Write` | esp-mdf/components/mdebug/mdebug_flash.c:101-179 | the exact new log, history and timestamp flag; the unread bytes stay a suffix of the history |
| `FlashLog.FlashLog.PartitionRead` | esp-mdf/components/mdebug/mdebug_flash.c:204 | the requested flash bytes end up in the buffer behind what was read before, which stays |
| `FlashLog.FlashLog.ReadTurn` | esp-mdf/components/mdebug/mdebug_flash.c:200-218 | one turn in place: the bytes copied and the moved offset |
| `FlashLog.FlashLog.Read` | esp-mdf/components/mdebug/mdebug_flash.c:181-223 | the exact bytes and log of a read |
| `FlashLog.FlashLog.Size` | esp-mdf/components/mdebug/mdebug_flash.c:241-256 | the number of unread bytes |
| `ChunkedHttp.HexRoundTrip` | esp-mdf/components/mlink/mlink_httpd.c:833 | the printed chunk size is read back |
| `ChunkedHttp.DecodeChunk` | esp-mdf/components/mlink/mlink_httpd.c:831-850 | a chunk in front of a body decodes to its data followed by what the body decodes to |
| `ChunkedHttp.DecodeChunks` | esp-mdf/components/mlink/mlink_httpd.c:862-868 | any list of chunks and the footer decode, under section 7.1 of RFC 9112, to the concatenated data |
| `ChunkedHttp.SendStages` | esp-mdf/components/mlink/mlink_httpd.c:818-852 | after the first three sends the whole chunk is out, or the connection is closed at a prefix that can be completed |
| `ChunkedHttp.WriteStages` | esp-mdf/components/mlink/mlink_httpd.c:782-876 | a write gets its chunk out or closes the connection, and is accepted exactly when all its sends succeed; the last one also ends the body and frees the slot |
| `ChunkedHttp.TimeoutEnds` | esp-mdf/components/mlink/mlink_httpd.c:159-187 | a timeout gives a terminated body or, before any reply, only the 400 response, or adds nothing; it closes in any case |
| `ChunkedHttp.NextKeepsInv` | esp-mdf/components/mlink/mlink_httpd.c:159-187 | writes, failures and timeouts keep: sent bytes are a completable prefix |
| `ChunkedHttp.RunIsWellFormed` | esp-mdf/components/mlink/mlink_httpd.c:782-876 | over any interleaving, the sent bytes are a prefix of a well-formed message, and n successes send exactly it and free the slot |
| `ChunkedHttp.ResponseDecodes` | esp-mdf/components/mlink/mlink_httpd.c:818-870 | after n successful writes the bytes are the header and a body that decodes to the replies in order |
| `ChunkedHttp.AllRepliesDecode` | esp-mdf/components/mlink/mlink_httpd.c:782-876 | n > 1 replies whose sends all succeed decode to exactly those replies |
| `ChunkedHttp.SingleReply` | esp-mdf/components/mlink/mlink_httpd.c:159-187 | a connection for one reply: a write is accepted exactly when the reply goes out, and sends exactly the reply; a timeout sends exactly the 400 response or nothing; the slot is free and nothing more is sent, whatever follows |
| `ChunkedHttp.HttpServer.Find` | esp-mdf/components/mlink/mlink_httpd.c:189-199 | the first open slot of a socket |
| `ChunkedHttp.HttpServer.Add` | esp-mdf/components/mlink/mlink_httpd.c:201-221 | the first free slot becomes a connection for n replies; false and no change when there is none |
| `ChunkedHttp.HttpServer.SendBuf` | esp-mdf/components/mlink/mlink_httpd.c:132-157 | one send: the bytes go out, or the slot is cleared |
| `ChunkedHttp.HttpServer.WriteAt` | esp-mdf/components/mlink/mlink_httpd.c:782-876 | the whole effect of a write on a slot and its wire |
| `ChunkedHttp.HttpServer.Respond` | esp-mdf/components/mlink/mlink_httpd.c:795-876 | a response finds its connection, changes only that slot, and is refused when there is none |
| `ChunkedHttp.HttpServer.TimeoutAt` | esp-mdf/components/mlink/mlink_httpd.c:159-187 | the whole effect of a timeout on a slot |
| `MlinkJson.TextRoundTrip` | esp-mdf/components/mlink/mlink_json.c:178-239 | a parser for sections 2 to 7 of RFC 8259 reads back every nested value without escapes from its text, whatever follows |
| `MlinkJson.ItemsRoundTrip` | esp-mdf/components/mlink/mlink_json.c:187-202 | after the text of members or elements the parser has collected exactly those, in order |
| `MlinkJson.PackedText` | esp-mdf/components/mlink/mlink_json.c:178-247 | unless it was empty of the same kind, one pack call turns the text of a document into the text of the document with the item added, or starts a new one of the other kind |
| `MlinkJson.PackParsesIffNotEmpty` | esp-mdf/components/mlink/mlink_json.c:188-195 | packing onto the text of any value gives a parsable text with the item added if and only if it was not an empty object or array of the same kind |
| `MlinkJson.StringReadBackIffNotRaw` | esp-mdf/components/mlink/mlink_json.c:219-226 | a string without escapes is read back as itself if and only if it does not start with a brace or a bracket |
| `MlinkJson.BracketMakesArray` | esp-mdf/components/mlink/mlink_json.c:185-202 | the text starts with a bracket, and parses to an array of keyless elements, exactly when the key starts with one; otherwise to an object with that key |
| `MlinkJson.RunParses` | esp-mdf/components/mlink/mlink_json.c:159-247 | any run of pack calls from a null pointer gives a text that parses to exactly the packed members, in order, those since the last call of the other kind |
| `MlinkJson.RunAppends` | esp-mdf/components/mlink/mlink_json.c:187-195 | which members a run leaves in the document |
| `MlinkJson.ValueFits` | esp-mdf/components/mlink/mlink_json.c:171-175 | the room reserved for a value is enough, up to two characters, for what is printed |
| `MlinkJson.JsonText.Pack` | esp-mdf/components/mlink/mlink_json.c:159-247 | the buffer holds exactly the packed text, the returned index is its length, every write is inside the reallocated size, and a null string changes nothing |
| `MlinkJson.JsonText.Begin` | esp-mdf/components/mlink/mlink_json.c:187-200 | the opening mark, or a comma in place of the closing one |
| `MlinkJson.JsonText.AddItem` | esp-mdf/components/mlink/mlink_json.c:201-246 | key, value and closing mark behind what is there |
| `Coredump.SendDump` | esp-mdf/components/mdebug/mdebug_cmd.c:394-433 | BEGIN at the start of a dump, exactly the 230-byte slices from the first packet asked for up to the first that fails five times, in order with their numbers, and END |
| `Coredump.DumpReceiver.OnPacket` | esp-mdf/examples/wireless_debug/main/debug_recv.cpp:184-240 | one packet in place: the exact new state, and when END is accepted |
| `Coredump.ReceiveKeepsInv` | esp-mdf/examples/wireless_debug/main/debug_recv.cpp:184-240 | what is stored are the encodings of the first slices of the sender of the last BEGIN |
| `Coredump.AcceptedDumpIsWhole` | esp-mdf/examples/wireless_debug/main/debug_recv.cpp:234-240 | END is accepted only when the stored output is the encodings of all slices, each once and in order, under any loss, repetition and reordering and with several senders |
| `Coredump.InOrderProgress` | esp-mdf/examples/wireless_debug/main/debug_recv.cpp:211-217 | the expected number reaches the end exactly when the packets from it on all arrive in order |
| `Coredump.EndAcceptedIffAllArrived` | esp-mdf/examples/wireless_debug/main/debug_recv.cpp:234-240 | under in-order delivery END is accepted if and only if every packet arrived and the size, cut to 16 bits, is positive |

## Left out

- UpgradeResumeLimit.CompletionLimitIsExact: images of 3969 packets whose last one is short are not decided for report intervals below 100: a false completion then needs that short packet, counted again after every restart, to add up to whole packets within the reports that store a checkpoint.
- UpgradeNode.UpgradeNode.OnStatus: nodes of type MESH_ROOT or MESH_STA, which mark themselves finished without data, are not modelled; `esp_ota_begin` and the store are taken to succeed. Requests with a total size of zero, which the code does not test and later divides by, are not modelled.
- UpgradeNode.UpgradeNode.OnPacket: a packet that passes the range check with a sequence number of 4096 or more, possible from 4 MiB on, would look behind the bitmap and is not modelled; the counter and the percentage are unbounded integers.
- UpgradeNodeSafety.RunKeepsInv: one campaign, that is one name, size and image; a checkpoint left by another campaign with the same name and size is not modelled.
- UpgradeNodeOutcomes.LosesLessThanInterval: with fewer than 100 packets one packet can skip the percentage at which a checkpoint is stored; the device is switched on before the campaign begins, because the next percentage is not reset when one begins.
- UpgradeSystem.UpgradeIsSafe: stated for images of at most 3968 packets; above, `CompletionLimitIsExact` says when a completion report can still be trusted.
- UpgradeRoot.UpgradeRoot.FirmwareSend: `mupgrade_firmware_stop` and failing flash reads are inputs of the run (`Surroundings`); packets that `mwifi_root_write` fails to send, flow control, timeouts in ticks and the result structure handed to the caller are not modelled.
- Multicast.TransmitWrite: sends and table queries succeed. What becomes of a message whose size does not fit the header is left open but for its being cut: its reader shrinks the buffer below what it has received.
- Multicast.MulticastExact: what follows from a direct message that is to be forwarded depends on a node that may be anywhere, and is left open; the any and broadcast addresses only count in first place, where they have lemmas of their own; unicast, compression and group addresses of mwifi.c are not modelled.
- MeshFragments.MeshReader.Read: timeouts inside a message, the capacity of the caller's buffer, the branch for a mesh that has not started, and what the mesh stack does with a fragment larger than the room offered are not modelled; fragments come from one sender.
- MeshFragments.ReassemblyExact: magics are random numbers in the code; for `__mwifi_read` no two fragments in a row share one, and a message does not start with a magic of the last one that started to arrive.
- MeshFragments.RepeatsExact: repeats come directly behind the fragment they repeat; whether a repeat of an earlier fragment fits the room offered is not part of it.
- Kmp.KmpNext: targets of 1 to 256 bytes, as table entries are bytes; the flag of the firmware check has at most 32.
- Espnow.Write: a send that fails and is given up is seen by the receiver as a loss; timing is not modelled.
- FlashLog.FlashLog.Write: writes that do not fit together with their timestamp are described by `WellFormedIffFits`, `OverrunHitsOtherFile` and `OverrunBreaksQueue` only; failed flash operations, the full event and the choice of file after a reboot are not modelled.
- ChunkedHttp.HttpServer.SendBuf: a send is taken to transmit all or nothing; the code takes a partial send for success.
- ChunkedHttp.HttpServer.Add: the socket has no open slot yet and at least one reply is expected; failures of timers and socket options are not modelled.
- ChunkedHttp.RunIsWellFormed: a timeout falls between two writes; the timer task can also fire between the sends of one write.
- Coredump.SendDump: dumps below 7536640 bytes, where the 16-bit sequence numbers do not wrap; base64 is any function; the sequence number is a parameter.
- MlinkJson.JsonText.Pack: integers and strings; unsupported value types, `mlink_json_pack_double` and the mode that prints into a caller's fixed buffer are not modelled.
- MlinkJson.RunParses: a string that starts with a brace or bracket must be the text of a document printed before; `StringReadBackIffNotRaw` says what happens to others.
- MlinkJson.TextRoundTrip: the parser has no whitespace, escapes, fractions, exponents or literals, none of which the printer writes.
- Memory exhaustion, logging, events, tasks and locks.
- The MAC list of the mesh information page, the LTV records and the sniffer list: flat byte formats and a bounded list with no protocol state, apart from the components modelled here.
- Configuration chaining and its cryptography, BLE, mDNS and UDP notices, consoles, displays and cloud examples.
