# Download integrity of amuled, verified

A Dafny model of the part of amuled that decides which bytes of a download are
asked for, which are trusted and which are delivered, with proofs of what it keeps.

- **AICH hash tree** (`AichTree`, `AichNodes`, `AichPath`, `AichRecovery`,
  `AichVerify`, `AichTheorems`, `AichResponder`, `AichSound`, `AichRebuild`, `AichMatch`): the
  streaming walk, the tree rebuilt from leaf hashes, the recovery data a peer sends
  for one part, and the two consumers that authenticate a part by sizes alone.
- **Salvage** (`Salvage`, `SalvageWindows`, `Repair`): narrowing a corrupt part to its
  corrupt blocks, reopening them in the queue, and what that does to ranges in flight.
- **Chunk selection** (`Ics`, `IcsSelect`, `IcsBlocks`, `IcsRuns`, `Registry`,
  `Progress`, `Selector`, `Regions`): trimming a block against the requests in flight, choosing a
  part, the registry shared by all peers of a file, and stripe regions.
- **Part files and queue** (`Gaps`, `PartFiles`, `Queue`): gap lists as sets of missing
  bytes, over every run of writes, punches, saves and resumes, and the life of a
  download up to its delivery.
- **eD2k hashing** (`Ed2k`), the **wire codec** (`Binary`, `Utf8`, `Tags`, `Packets`)
  and the **throttle** (`Throttle`).

`Shape` (the tree of a segment) carries the irregular split: blocks of 184,320 bytes
inside parts of 9,728,000, the odd one to the left under a left branch. Every walk of
the source is a recursion or loop over it. SHA-1 is any table to 20 bytes and MD4 any
table to 16; no theorem assumes that they do not collide. Where a collision is the only
other explanation, a function returns the two strings, and the theorem says that they
differ, have one hash, and which walk hashed each.

`dafny verify dfyconfig.toml` checks the project.

## Model

| member | source | states |
|---|---|---|
| `AichTree.LeftSize` | src/amuled_v2/core/hashes/aich.py:132-146 | both halves of a split are non-empty, so the branch that raises for an invalid split is dead and the recursion ends |
| `AichTree.BalancedSplit` | src/amuled_v2/core/hashes/aich.py:131-142 | halves differ by at most one unit, a block up to one part and a part above, whole units go left, and the odd one falls to the side the segment itself is on |
| `AichTree.DigestOfSegment` | src/amuled_v2/core/hashes/aich.py:126-156 | a digest is the SHA-1 of the bytes of up to one block, otherwise of the digests of the two halves |
| `AichTree.HashSegment` | src/amuled_v2/core/hashes/aich.py:113-156 | the recursion over a shared leaf list returns the digest and appends exactly the leaves of the segment's shape; a short read is an AichError |
| `AichTree.HashData` | src/amuled_v2/core/hashes/aich.py:159-175 | master and block hashes of a file are those of its shape |
| `AichTree.SpansAreFlat` | src/amuled_v2/core/hashes/aich.py:131-156 | the tree walk meets exactly the blocks of a flat, part-by-part scan, whichever branch the segment hangs on |
| `AichTree.StreamingPartition` | src/amuled_v2/core/hashes/aich.py:113-156 | for every file the leaves tile it in order, each the hash of its block, and number 53 for a whole part plus the blocks of the tail |
| `AichNodes.MaterializedTree` | src/amuled_v2/core/hashes/aich.py:257-291 | rebuilding the tree from the streamed leaves works if and only if the file has 1 byte to 8 parts, and then it is the streaming tree with the streaming master |
| `AichNodes.TakenLeaves` | src/amuled_v2/core/hashes/aich.py:277-281 | counting the left leaves across part boundaries is right up to 8 parts and too low for the left half of anything larger |
| `AichPath.PartPathIdent` | src/amuled_v2/core/hashes/aich.py:362-391 | the loop over sizes returns the ident, size and side of the node the tree walk ends on, or an AichError exactly when the file has no such part |
| `AichPath.WalkEndsOnPart` | src/amuled_v2/core/hashes/aich.py:374-391 | from every file the walk to a part start ends on the node of exactly that part |
| `AichPath.LeafIdentsAgree` | src/amuled_v2/core/hashes/aich.py:394-417 | numbering a part's leaves by block counts agrees with walking the tree as the responder does |
| `AichPath.PathIdentifiers` | src/amuled_v2/core/hashes/aich.py:362-417 | for every file and part the leaf idents are pairwise distinct and differ from all sibling and path idents, and so do the siblings among themselves |
| `AichPath.LeavesRepeatBit` | src/amuled_v2/core/hashes/aich.py:394-417 | below a part every ident starts with the bits of the part and once more with the last of them |
| `AichPath.IdentWidth` | src/amuled_v2/core/hashes/aich.py:355-356 | a part of a file of at most 2^d parts is at most d turns deep, and up to 256 parts every ident fits 16 bits |
| `AichVerify.PartRecoveryData` | src/amuled_v2/core/hashes/aich.py:294-359 | the responder's walk over the materialised tree is the specification that HonestResponder is about, errors included |
| `AichTheorems.HonestResponder` | src/amuled_v2/core/hashes/aich.py:294-332 | a responder with the file answers if and only if the file is above one block and at most 8 parts and has the part; above 8 parts its own rebuild raises |
| `AichResponder.AnswersVerify` | src/amuled_v2/core/hashes/aich.py:294-492 | whatever hash result a responder answers from, right or wrong, the consumer accepts its answer against the master of that result |
| `AichRecovery.WireRoundTrip` | src/amuled_v2/core/hashes/aich.py:343-359 | whatever the responder serialises, with 16-bit or 32-bit idents, parses back to its entries |
| `AichRecovery.SendableIff` | src/amuled_v2/core/hashes/aich.py:343-359 | a list can be sent if and only if it has up to 65,535 entries and its idents fit two bytes, or four above 4 GiB; only a wide ident is an AichError |
| `AichRecovery.NarrowLayout` | src/amuled_v2/core/hashes/aich.py:351-358 | up to 4 GiB the blob is the count, each entry's two-byte ident and hash, and a zero count, byte by byte |
| `AichRecovery.WideLayout` | src/amuled_v2/core/hashes/aich.py:345-350 | above 4 GiB it is a zero count, the count, and each entry's four-byte ident and hash |
| `AichRecovery.ParseRecovery` | src/amuled_v2/core/hashes/aich.py:504-521 | the two loops read what ParsesIff and LastEntryCounts are about |
| `AichRecovery.ParsesIff` | src/amuled_v2/core/hashes/aich.py:504-521 | a blob parses if and only if it reaches the ident of the last entry it announces |
| `AichRecovery.LastEntryCounts` | src/amuled_v2/core/hashes/aich.py:511-520 | of several entries of one ident the last one counts |
| `AichTheorems.RecoveryRoundTrip` | src/amuled_v2/core/hashes/aich.py:294-492 | whatever an honest responder sends for a part, through the wire, the consumer accepts against the true master, and it gets exactly that part's block hashes |
| `AichVerify.VerifiedPartBlocks` | src/amuled_v2/core/hashes/aich.py:420-492 | the consumer's loops compute the specification that MerkleSoundness and RecoveryRoundTrip are about |
| `AichSound.MerkleSoundness` | src/amuled_v2/core/hashes/aich.py:420-492 | for every file, part and blob: accepted block hashes are the streamed ones, each the hash of one block of the part, or two different strings with one SHA-1 are returned, one hashed by the consumer and one by the streaming walk |
| `AichSound.ConsumerErrors` | src/amuled_v2/core/hashes/aich.py:420-521 | for every file size the consumer never runs out of leaves; it fails with something other than AichError exactly when the part exists and the blob is cut short |
| `AichRebuild.RebuildMaster` | src/amuled_v2/core/hashes/aich.py:524-579 | the rebuild from one part computes the specification of the theorems below |
| `AichMatch.RebuildErrors` | src/amuled_v2/core/hashes/aich.py:536-579 | the rebuild refuses what is not a part of the file, and fails otherwise than by AichError exactly when the part is right and the blob does not parse |
| `AichRebuild.RebuildComplete` | src/amuled_v2/core/hashes/aich.py:549-579 | true part bytes and true siblings give the streaming master for every file size, whatever else the blob holds, unless an entry takes the place of the part |
| `AichMatch.RebuildFromHonestBlob` | src/amuled_v2/core/hashes/aich.py:524-579 | the rebuild returns the master for every blob an honest responder sends |
| `AichMatch.ShadowedIgnoresPart` | src/amuled_v2/core/hashes/aich.py:551-560 | with an entry above the part, or at the part's own node when it is one block, all part bytes of the right length give the same result |
| `AichMatch.MatchProvesPart` | src/amuled_v2/core/hashes/aich.py:524-579 | without such an entry a match proves the part bytes, or two colliding strings that were hashed are returned |
| `AichMatch.MatchProvesIff` | src/amuled_v2/core/hashes/aich.py:533-536 | once anything matches, a match proves the part when no entry takes its place, and otherwise every part of the right length matches |
| `AichMatch.RootBlobMatchesAll` | src/amuled_v2/core/hashes/aich.py:549-560 | for every file of more than one part, or of one block, a well-formed blob with one entry for the root makes all part bytes of the right length match |
| `AichMatch.CanBeShadowedIff` | src/amuled_v2/core/hashes/aich.py:549-579 | those are exactly the files in which any entries can take the place of a part |
| `Salvage.NarrowCorrupt` | src/amuled_v2/core/download/runner.py:1134-1206 | the loop over corrupt parts computes the specification of the theorems below, whole-part fallback included |
| `Salvage.NarrowingReturns` | src/amuled_v2/core/download/runner.py:1157-1206 | narrowing returns if and only if no blob it looks at is cut short; a rejected blob is no obstacle |
| `Salvage.NarrowingExact` | src/amuled_v2/core/download/runner.py:1157-1206 | what narrowing returns is exactly every part without an accepted blob, every block on disk whose hash is not the verified one, and the whole first part if it has no such block |
| `Salvage.NarrowPartExact` | src/amuled_v2/core/download/runner.py:1160-1205 | the same for one turn of the loop, after any ranges found before |
| `Salvage.SalvageLosesNothing` | src/amuled_v2/core/download/runner.py:1157-1206 | whenever narrowing returns, every byte of a corrupt part that differs from the file behind the trusted master, or is missing from a block cut short, lies in a returned range, or two colliding strings that were hashed are at hand |
| `Salvage.AbsentBlockIff` | src/amuled_v2/core/download/runner.py:1180-1205 | once the blob is accepted, a byte of a block of which nothing is on disk is returned if and only if no bad block is found here and no range was found before |
| `SalvageWindows.NarrowedIsWhole` | src/amuled_v2/core/download/runner.py:1157-1206 | whatever narrowing returns is whole block windows of the file |
| `Repair.RepairKeepsInvIff` | src/amuled_v2/core/download/runner.py:1031-1042 | a repair keeps the registry invariant if and only if every range in flight in a reopened window covers that window |
| `Repair.RepairDownload` | src/amuled_v2/core/download/runner.py:1031-1042 | after narrowing and punching, the row is downloading and what is newly missing in its stored gap list is whole windows, exactly the bytes of NarrowingExact, and every corrupt byte unless a collision is at hand |
| `Repair.WholeFileReopened` | src/amuled_v2/core/download/runner.py:1010-1042 | where nothing was missing before, the data file has its full length, so these are all differing bytes of the corrupt parts |
| `Ics.ShrinkToAvoid` | src/amuled_v2/core/download/ics.py:112-149 | for any order of ranges the loop reaches its fixpoint within the guard and leaves what ShrinkMeans describes |
| `Ics.ShrinkMeans` | src/amuled_v2/core/download/ics.py:112-149 | nothing is left exactly when every byte is requested; otherwise the first to the last free byte |
| `Ics.ShrinkClearIff` | src/amuled_v2/core/download/ics.py:112-149 | what is left overlaps no request if and only if no requested byte lies between two free ones |
| `Ics.NextBlockInPart` | src/amuled_v2/core/download/ics.py:152-186 | the loops over gaps and windows return the next block that the registry theorems are about |
| `Ics.NextBlockExists` | src/amuled_v2/core/download/ics.py:152-186 | a part has no next block if and only if every missing byte of it is requested |
| `IcsBlocks.NextBlockMeans` | src/amuled_v2/core/download/ics.py:152-186 | the next block runs from the first missing byte nobody requested to the last such byte that is missing in one run with it in the same 184,320 bytes of the part |
| `IcsSelect.IcsMode` | src/amuled_v2/core/download/ics.py:194-216 | the mode follows from the scarcest part that still has missing bytes |
| `IcsSelect.ScarcestDecides` | src/amuled_v2/core/download/ics.py:194-216 | up to 10 sources of the scarcest missing part give release mode, up to 25 spread mode, more share mode |
| `IcsSelect.ChoiceOrder` | src/amuled_v2/core/download/ics.py:224-330 | in release mode the chosen part has most missing bytes, otherwise the least load in units of 256 bytes; over-assigned parts come last, in the same order but with loads known modulo 65,536 bytes |
| `IcsSelect.OverAssignedIff` | src/amuled_v2/core/download/ics.py:262-268 | a part is over-assigned when three times its missing bytes are at most a whole part for every other range |
| `IcsSelect.OverAssignedRanksLast` | src/amuled_v2/core/download/ics.py:224-265 | in every mode an over-assigned part ranks behind every other one; an unpenalised part has a combined load below PART_SIZE |
| `IcsSelect.ChoosePart` | src/amuled_v2/core/download/ics.py:273-330 | the sticky part if it is a candidate, otherwise a candidate of least preference value, whichever the random pick takes; none exactly when there is no candidate |
| `IcsSelect.OverAssignmentDominance` | src/amuled_v2/core/download/ics.py:224-330 | when the sticky part is not a candidate, no over-assigned part is chosen while a candidate below the limit exists |
| `IcsBlocks.SelectBlocks` | src/amuled_v2/core/download/ics.py:338-408 | every turn is a legal choice among the candidates the exhausted ones left, with that part's next block beside the blocks issued before; it stops early only when no candidate is left |
| `IcsBlocks.ChosenIsChoice` | src/amuled_v2/core/download/ics.py:384-393 | the choice of a turn is what `choose_part` does with what is left |
| `IcsBlocks.BlockIsIssued` | src/amuled_v2/core/download/ics.py:338-408 | a block is issued whenever some candidate has a free byte and fewer exhausted candidates than turns may come before it |
| `IcsBlocks.NoBlockIsIssued` | src/amuled_v2/core/download/ics.py:394-400 | nothing is issued when as many exhausted candidates as turns come before every candidate with a free byte |
| `IcsBlocks.BlockIssuedIff` | src/amuled_v2/core/download/ics.py:338-408 | without ties and mode-dependent orders between exhausted and free parts, a block is issued if and only if fewer exhausted candidates than turns come first |
| `IcsRuns.AlwaysIssuesIff` | src/amuled_v2/core/download/ics.py:338-408 | while the mode stays the same, a block is issued in every run, whatever ties do, if and only if there is a turn and a part with a free byte, and the sticky part is such a part or fewer exhausted parts than turns can come first |
| `IcsRuns.ScarcestIsFree` | src/amuled_v2/core/download/ics.py:194-216 | the mode stays the same when no missing part has fewer sources than some part with a free byte |
| `IcsRuns.EveryMissingByteIsWanted` | src/amuled_v2/core/download/ics.py:80-92 | the parts cover the file: each missing byte lies in a part that is considered for it |
| `IcsRuns.HasFreeIff` | src/amuled_v2/core/download/ics.py:338-408 | a part with something to ask for is one of whose missing bytes nobody requested some |
| `Progress.RequestedIsOverAssigned` | src/amuled_v2/core/download/ics.py:262-268 | a part all of whose missing bytes others have requested, each range in one window, is over-assigned by the ranges that touch it |
| `Progress.ProgressBelowLimit` | src/amuled_v2/core/download/runner.py:900-957 | within the registry invariant a block is issued whenever a candidate below its limit has a free byte and there are more turns than exhausted candidates that are sticky or touched by the peer's own ranges |
| `Progress.TurnDominance` | src/amuled_v2/core/download/runner.py:903-950 | with the runner's counts no turn goes to an over-assigned part that is not sticky while a candidate below the limit is left |
| `Progress.ThreeTurnsWasted` | src/amuled_v2/core/download/ics.py:394-400 | a peer with ranges in flight for all of three parts, within the registry invariant, wastes all three turns on them while a fourth part has a free byte |
| `Registry.WholeCoversPieces` | src/amuled_v2/core/download/ics.py:168-186 | a range of the invariant that meets a maximal missing piece of a block window covers all of it |
| `Registry.NextBlockIsPiece` | src/amuled_v2/core/download/ics.py:152-186 | within the invariant the next block of a part is a whole piece, none of whose bytes is requested |
| `Registry.StepKeepsInv` | src/amuled_v2/core/download/runner.py:893-963 | every select, write and release keeps the invariant and issues fresh whole pieces; a punch keeps it if and only if it leaves no end of a range in flight missing together with its outer neighbour |
| `Registry.EveryRunKeepsInv` | src/amuled_v2/core/download/runner.py:893-963 | over every run of any number of peers whose punches were safe so far, the ranges in flight are disjoint and whole, and the next blocks issued are fresh whole pieces |
| `Registry.EveryRunIff` | src/amuled_v2/core/download/runner.py:893-963 | exactly the runs whose punches are all safe keep the invariant in every state |
| `Registry.WindowPunchSafeIff` | src/amuled_v2/core/download/runner.py:1197-1205 | a punch of whole block windows is safe if and only if every range in flight in one of them covers it |
| `Registry.PartPunchOverlaps` | src/amuled_v2/core/download/runner.py:1201-1205 | after a whole-part punch beside a range not yet released, the next block overlaps that range |
| `Selector.InFlight.Register` | src/amuled_v2/core/download/runner.py:450-454 | the ranges join the bucket of their file; other files are untouched |
| `Selector.InFlight.ReleaseRanges` | src/amuled_v2/core/download/runner.py:456-464 | the ranges leave the bucket, and an empty bucket is dropped |
| `Selector.CountOthers` | src/amuled_v2/core/download/runner.py:903-915 | the counts are, for every part, the ranges in flight that touch it and that this peer did not issue |
| `Selector.PeerSelector.Select` | src/amuled_v2/core/download/runner.py:900-957 | one select step of the registry's state machine, by legal turns over the file's gaps and the other peers' counts |
| `Selector.PeerSelector.Release` | src/amuled_v2/core/download/runner.py:960-963 | one release step of the registry's state machine |
| `Regions.RegionsFromGaps` | src/amuled_v2/core/download/runner.py:199-242 | for canonical gaps and any positive number of peers: at most so many regions, abutting, from the first gap's start to the last gap's end, each with ceil(total/peers) missing bytes but the last, which has at least one |
| `Gaps.Normalize` | src/amuled_v2/core/download/partfile.py:77-92 | the result is sorted, separated, in bounds and without empty entries, and stands for exactly the same bytes inside the file |
| `Gaps.CanonicalUnique` | src/amuled_v2/core/download/partfile.py:77-92 | two canonical lists of the same bytes are the same list |
| `PartFiles.PartFile.WriteBlock` | src/amuled_v2/core/download/partfile.py:195-217 | a block inside the file is written and no longer missing; any other changes nothing |
| `PartFiles.OverwriteAt` | src/amuled_v2/core/download/partfile.py:195-217 | the bytes written, zeros where the file was too short, everything else as it was |
| `PartFiles.PartFile.Punch` | src/amuled_v2/core/download/partfile.py:219-232 | the range, clipped to the file, is missing again |
| `PartFiles.PartFile.TotalIsMissing` | src/amuled_v2/core/download/partfile.py:236-238 | the gap lengths add up to the number of missing bytes |
| `PartFiles.PartFile.CompleteIsGapFree` | src/amuled_v2/core/download/partfile.py:244-246 | complete means that no byte is missing |
| `PartFiles.PartFile.ChunkBitmap` | src/amuled_v2/core/download/partfile.py:253-263 | a chunk is done if and only if none of its bytes is missing |
| `PartFiles.PartFile.Resume` | src/amuled_v2/core/download/partfile.py:151-178 | resuming gives back the bytes of the stored list, and the list itself when `save` wrote it |
| `PartFiles.StepShows` | src/amuled_v2/core/download/partfile.py:195-288 | each operation keeps this: missing are exactly the bytes not written since their last punch, and every other byte on disk is the one last written |
| `PartFiles.Run` | src/amuled_v2/core/download/partfile.py:95-288 | the same after every run of writes, punches, saves and resumes |
| `Queue.DownloadQueue.Add` | src/amuled_v2/core/download/queue.py:86-128 | a known key returns its row unchanged; otherwise a new row with everything missing, or an error that changes nothing |
| `Queue.DownloadQueue.Resume` | src/amuled_v2/core/download/queue.py:156-164 | only a paused download resumes |
| `Queue.DownloadQueue.Cancel` | src/amuled_v2/core/download/queue.py:166-191 | the row goes, and both files unless they are kept |
| `Queue.DownloadQueue.RecordBlock` | src/amuled_v2/core/download/queue.py:195-221 | the covered bytes are no longer missing, and the row is complete if and only if nothing is |
| `Queue.DownloadQueue.PunchGaps` | src/amuled_v2/core/download/queue.py:237-262 | the ranges are missing again and the row goes back to downloading, also from complete |
| `Queue.DownloadQueue.Finalize` | src/amuled_v2/core/download/queue.py:264-312 | what moves is a file of the row's size with the last written value at every byte, and when verified the row's key is its eD2k hash; every refusal changes nothing |
| `Queue.FileHash` | src/amuled_v2/core/download/queue.py:314-321 | the digest is the eD2k hash: the MD4 of a file below 9,728,000 bytes, otherwise that of its chunks' MD4s, and no other |
| `Queue.NoGapsIsWhole` | src/amuled_v2/core/download/queue.py:264-312 | a row without gaps has a data file of full length with the last written value everywhere |
| `Queue.Run` | src/amuled_v2/core/download/queue.py:86-312 | in every reachable state complete means no gaps and `downloaded` is the size minus the missing bytes; every delivered file was whole, and the finished files are the earlier ones with the delivered ones put over them |
| `Ed2k.Ed2kHasher.Update` | src/amuled_v2/core/hashes/ed2k.py:76-89 | the loop over an update is the streaming function of the theorems below |
| `Ed2k.HashFile` | src/amuled_v2/core/hashes/ed2k.py:119-129 | reading a file in pieces gives its size, its chunk digests and their hash |
| `Ed2k.FeedConcat` | src/amuled_v2/core/hashes/ed2k.py:76-89 | two updates are one update with the data put together |
| `Ed2k.StreamingIndependence` | src/amuled_v2/core/hashes/ed2k.py:76-109 | however the data is cut, the first result is that of the whole: size div chunk size + 1 digests, an empty-chunk digest at exact multiples, and their sole digest or the MD4 of them all |
| `Ed2k.SecondResult` | src/amuled_v2/core/hashes/ed2k.py:91-109 | asking again adds one empty-chunk digest, so a second result equals the first if and only if nothing was fed |
| `Binary.StringReadsBack` | src/amuled_v2/core/codec/binary.py:82-85 | strings of up to 65,535 bytes read back and leave what followed; longer ones are refused |
| `Binary.BinaryWriter.WriteString` | src/amuled_v2/core/codec/binary.py:82-85 | the buffer grows by the length and the text, or stays as it is with an error |
| `Binary.BinaryReader.ReadUint` | src/amuled_v2/core/codec/binary.py:123-153 | a little-endian number and the position behind it, or an error that leaves the position alone |
| `Tags.WriteNewTag` | src/amuled_v2/core/codec/tags.py:173-203 | what is appended is the encoding of the theorems below, the partial one when it fails |
| `Tags.ReadNewTag` | src/amuled_v2/core/codec/tags.py:262-278 | what is read, the error, and where the reader stands after either, are the decoding of the theorems below |
| `Tags.NumberReads` | src/amuled_v2/core/codec/tags.py:241-248 | a number of any width reads as itself, whether or not a narrower one would do |
| `Tags.TextReads` | src/amuled_v2/core/codec/tags.py:220-228 | a text of either form reads as its UTF-8 or else its Latin-1 characters |
| `Tags.BadNameReads` | src/amuled_v2/core/codec/tags.py:206-217 | a name that is not UTF-8 is refused behind it, unless it is one byte long |
| `Utf8.Utf8Iff` | src/amuled_v2/core/codec/tags.py:214-228 | the bytes taken as UTF-8 are exactly the encodings of sequences of characters |
| `Utf8.Latin1IsEncoded` | src/amuled_v2/core/codec/tags.py:225-228 | what is not UTF-8 reads as the character of each byte's number |
| `Tags.EncodableIff` | src/amuled_v2/core/codec/tags.py:85-203 | a tag can be written if and only if its value suits its type and its name has a two-byte length |
| `Tags.RangeErrorIff` | src/amuled_v2/core/codec/tags.py:85-203 | which tags fail with a ValueError: texts, numbers and hashes that do not fit, and types above 255 |
| `Tags.TypeErrorIff` | src/amuled_v2/core/codec/tags.py:139-142 | a TypeError comes exactly from a hash given as text, float or nothing |
| `Tags.HeaderLayout` | src/amuled_v2/core/codec/tags.py:189-203 | the header is the type with its top bit and the id, or the type, the length of the name and the name, byte by byte |
| `Tags.TextLayout` | src/amuled_v2/core/codec/tags.py:99-110 | texts of 1 to 16 bytes take the type 0x10 plus their length, all others 0x02 and a two-byte length |
| `Tags.NumberLayout` | src/amuled_v2/core/codec/tags.py:85-126 | numbers are little-endian, and those of type UINT32 take the fewest of 1, 2, 4 and 8 bytes |
| `Tags.OtherLayout` | src/amuled_v2/core/codec/tags.py:132-168 | hashes, floats, booleans and the two kinds of byte strings, by type number and byte |
| `Tags.TagRoundTrip` | src/amuled_v2/core/codec/tags.py:173-278 | every tag that can be written reads back with its normalised type and value, and exactly what followed is left |
| `Tags.IdentifierKept` | src/amuled_v2/core/codec/tags.py:206-217 | the identifier survives if and only if it is not a name of one byte |
| `Tags.RereadIff` | src/amuled_v2/core/codec/tags.py:85-278 | a tag read from any bytes can be written again if and only if it is no BOOLARRAY and no text of more than 65,535 UTF-8 bytes, and then it reads back unchanged |
| `Tags.BoolArrayIsLost` | src/amuled_v2/core/codec/tags.py:253-256 | every BOOLARRAY reads as its type without a value, which is refused when written |
| `Tags.LongLatinIsLost` | src/amuled_v2/core/codec/tags.py:220-228 | a string of 32,768 or more bytes 0xFF can be written, and what is read for it is too long to be written |
| `Tags.TruncatedTagFails` | src/amuled_v2/core/codec/tags.py:206-278 | every proper prefix of a written tag fails as cut short |
| `Tags.TagsRoundTrip` | src/amuled_v2/core/codec/tags.py:173-278 | the same for lists of tags |
| `Packets.DecodesIff` | src/amuled_v2/core/codec/packet.py:75-113 | data decodes to a packet and a rest if and only if it is that packet encoded, followed by that rest |
| `Packets.PacketLayout` | src/amuled_v2/core/codec/packet.py:75-84 | protocol, four-byte length of opcode and payload, opcode, payload, byte by byte |
| `Packets.DecodeFails` | src/amuled_v2/core/codec/packet.py:87-108 | data fails to decode for a zero length or because it ends before what the length says |
| `Packets.PackedLayout` | src/amuled_v2/core/codec/packet.py:128-144 | a packet is sent compressed exactly when that is shorter, under the protocol that says so |
| `Packets.UnpackedIff` | src/amuled_v2/core/codec/packet.py:147-169 | for any data, what unpacking gives: a packed payload inflates to 1 byte to 16 MiB |
| `Packets.UnpackPacked` | src/amuled_v2/core/codec/packet.py:116-169 | compressed packets of any family but KAD come back as EDONKEY, and those over 16 MiB not at all |
| `Packets.PackRoundTrip` | src/amuled_v2/core/codec/packet.py:128-169 | packing and unpacking give the packet back if and only if it was sent as it is under a protocol that does not say packed, or compressed as KAD or EDONKEY and at most 16 MiB |
| `Throttle.Gate.Pass` | src/amuled_v2/core/download/runner.py:473-493 | one call of the gate: refill up to the capacity, then spend or sleep |
| `Throttle.NoLimit` | src/amuled_v2/core/download/runner.py:475-477 | without a positive rate nothing waits and no tokens change |
| `Throttle.WaitedIsSlept` | src/amuled_v2/core/download/runner.py:488-491 | returning no earlier than the sleep is waiting until the missing tokens are earned |
| `Throttle.ThrottleBound` | src/amuled_v2/core/download/runner.py:473-493 | over any run of calls no more than the capacity and twice the rate times the time is admitted |
| `Throttle.Account` | src/amuled_v2/core/download/runner.py:473-493 | what a run admits, exactly: its tokens, the refill of its time and the sleep of all calls but the last, less what is left, lost and late |
| `Throttle.SingleRateIff` | src/amuled_v2/core/download/runner.py:483-491 | more than the tokens and one refill is admitted if and only if that sleep earns more than is left, lost and late |
| `Throttle.SingleRateBound` | src/amuled_v2/core/download/runner.py:488-491 | the single rate holds whenever no call before the last one finds too few tokens |
| `Throttle.ThrottleBoundReached` | src/amuled_v2/core/download/runner.py:483-491 | for every rate and any number of pairs of calls there is a run that reaches the double rate |

## Findings

What the code's documentation or shape suggests and the code does not do, each with an
input and the exact condition.

| promise | input | exact condition |
|---|---|---|
| A match of the rebuilt master proves the part bytes (src/amuled_v2/core/hashes/aich.py:533-536). | `AichMatch.RootBlobMatchesAll`: any part bytes, under a blob with one entry for the root | `AichMatch.MatchProvesIff`: no entry for a node above the part, nor for a part of one block; `AichMatch.CanBeShadowedIff`: always so in files of one part above one block |
| The tree can be rebuilt from the hashes of any file (src/amuled_v2/core/hashes/aich.py:257-291). | `AichNodes.MaterializedTree`: every file above 8 parts | `AichNodes.MaterializedTree`: 1 byte to 8 parts, because the left leaves are counted across part boundaries |
| A block trimmed against the requests overlaps none (src/amuled_v2/core/download/ics.py:113-119). | `Registry.StrictlyInsideStays`: a request strictly inside the block | `Ics.ShrinkClearIff`: no requested byte between two free ones |
| A selection returns a block when a candidate has one (src/amuled_v2/core/download/ics.py:338-408). | `Progress.ThreeTurnsWasted`: three parts the peer has asked for before one with a free byte, three turns | `IcsRuns.AlwaysIssuesIff`: the sticky part has a free byte, or fewer exhausted parts than turns can come first; `Progress.ProgressBelowLimit` in the registry's terms |
| A punch leaves the registry sound (src/amuled_v2/core/download/runner.py:1032-1036). | `Registry.PartPunchOverlaps`: a whole-part punch beside a range not yet released | `Repair.RepairKeepsInvIff`, `Registry.WindowPunchSafeIff`: every range in flight in a reopened window covers it |
| The throttle admits the capacity and the rate times the time (src/amuled_v2/core/download/runner.py:466-472). | `Throttle.ThrottleBoundReached`: a full burst and pairs of calls | `Throttle.SingleRateIff`: the sleep before the last call, credited again because the time is stamped before sleeping, earns no more than is left, lost and late |
| The eD2k result can be asked for again (src/amuled_v2/core/hashes/ed2k.py:98-109). | `Ed2k.SecondResult`: any data | `Ed2k.SecondResult`: nothing was fed |
| A written tag reads back with its name (src/amuled_v2/core/codec/tags.py:206-213). | `Tags.IdentifierKept`: a name of one byte, read as a numeric id | `Tags.IdentifierKept`: any other name or id |
| A tag that was read can be written again (src/amuled_v2/core/codec/tags.py:173-278). | `Tags.BoolArrayIsLost`, `Tags.LongLatinIsLost` | `Tags.RereadIff`: no BOOLARRAY, and no text of more than 65,535 UTF-8 bytes |
| A packed packet comes back as it was (src/amuled_v2/core/codec/packet.py:128-169). | `Packets.UnpackPacked`: a compressed EMULE packet | `Packets.PackRoundTrip` |

Smaller differences from the text around the code: a part node's branch bit is shifted in
a second time below it (src/amuled_v2/core/hashes/aich.py:334-343 and 405-413), which the
model keeps; `ED2K_CHUNK_SIZE` is 9,728,400 (src/amuled_v2/core/download/partfile.py:54),
not the eD2k part size, so bitmap chunks are not parts; in a 32-bit list the hash of the
last entry may be cut short and still parses; the fallback to a whole part looks at the
ranges of all parts so far (src/amuled_v2/core/download/runner.py:1197-1205), which loses
no corrupt byte.

## Left out

- The internals of SHA-1, MD4 and zlib: opaque tables; zlib streams are non-empty and unpack to what was packed.
- The meaning of FLOAT32: floats are their four bytes, and a number or text given for one is packed by an opaque table; that a signalling NaN may come back quiet is not modelled. Texts with lone surrogates, which no UTF-8 encodes, are not modelled.
- `math.ceil(gap_size * 3 / PART_SIZE)` and `math.ceil(total_size / PART_SIZE)`: exact integer ceilings. The floats are exact for the first, whose operands are small; for the second, file sizes far above 2^53 bytes are not modelled.
- Throttle arithmetic is over the reals; float rounding is not modelled.
- The random pick among ties is an arbitrary one.
- Peers, sockets and asyncio: a transfer is any sequence of select, write, release and punch steps. `frequencies` and `available` are inputs; a peer without a part status is asked with all parts by the caller.
- SQL and file systems: the row, the stored gap list and the data file are values; a part file's data is a byte sequence, short where nothing was written yet. Preallocation, directory creation and free space come in as numbers. Crashes between two writes are not modelled.
- Key normalisation: keys are normalised hashes; the names and paths of files are not looked at.
- `downloads` rows with status ERROR: nothing in the queue sets it.
- `_verify_parts_against_hashset`: which parts are corrupt is an input of the salvage.
- AICH hashing of files from a path, `aich_verify_data` and `aich_verify_file`: they wrap the same recursion.
- The built-in sort of gaps is an insertion sort with the same result.
- Salvage.SalvageLosesNothing: does not promise blocks of which nothing is on disk, because the code does not return them (`Salvage.AbsentBlockIff`), nor, for a download no longer listed, bytes that are not on disk, because the parts then come back as read; `Repair.WholeFileReopened` says that a download without gaps has none.
- IcsBlocks.BlockIssuedIff: where no preference value ties an exhausted part with a free one and no mode orders them differently. `IcsRuns.AlwaysIssuesIff` allows ties in a mode that stays the same; where the mode changes as parts are exhausted, BlockIsIssued and NoBlockIsIssued bound it from both sides.
- `_a4af_needed_parts`, the part-frequency counts, the KAD engine, the upload engine, server sessions and the command line: not part of this model.
