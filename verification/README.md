# A verified model of block-dn's producers, checks and formats

block-dn serves block headers, BIP 157 filters and Silent Payments data of a Bitcoin node as
files that a CDN may cache for a year. This project models the parts that decide whether those
files are right, and proves it for every run, every reorg and every crash between two steps; for the
producers that write several files a range, also for crashes between two file writes.

- **Producers.** `ProducerLog` is the life of one producer as a transition system: a log with a
  frozen prefix. `Producer` is `producerBase` as a class over it, with the hooks as function
  values and a backend that may change its best chain between any two calls (its answers depend
  on a clock). `FileNames` finds the resume point from zero-padded file names.
- **Commitment chains.** `FilterChain` has the BIP 157 fold ("Filter Headers") and linked block
  headers. The hash is an arbitrary function; where the code relies on collision resistance, the
  result here hands back the two colliding inputs. `Schedule` says what a
  sequence of blocks, seals, rollbacks and kills leaves of a log. `CustomChain` and `CustomFilters` are the custom
  filter producer: ingest row by row, rebuild from disk file by file, batches of files, crashes.
  `CFilters` and `Headers` are the checks before sealing; `SealedFiles` joins them to the lifecycle:
  what any file on disk holds after any sequence of processes and reorgs. `Verify`, `VerifySound` and
  `VerifyComplete` are the offline checker, against a running server whose answers may change between
  any two questions, what a clean run proves, and that nothing right is listed.
- **Formats and the read side.** `Wire` (CompactSize and length-prefixed strings), `FilterFile`,
  `SPTweaks`, `SpentTxOuts`; `Import` stitches sealed files and memory; `Prefetcher` and `H2HCache`
  are the two caches.

What a class's methods do is tied to pure functions and predicates, about which the lemmas are
stated. A file write either happens or fails; a crash between two writes is a failed write. In
`Producer` only the files a restart looks for are kept, and a seal may break off right behind one. `dafny verify dfyconfig.toml` checks everything.

Preconditions taken from the code: at least two entries per file (the resume lookup answers 0 for
"no files", cfilter-files.go:328, and the caller asks for `> 0`, file-producer.go:124); headers per
file a multiple of entries per file (custom-filter-files.go:259), for the basic files only where a
claim is about whole header spans; heights that fit the seven digits
of a file name (cfilter-files.go:33), where the lookup is right if and only if they do.

Where the code and its comments disagree, the code is modelled:

- silent-payments-files.go:58-59 says that dust level zero contains every tweak. The comparison is
  strict, so it does exactly if no transaction's largest taproot output is worth zero
  (`SPTweaks.LevelZero`, `SPTweaks.LevelZeroMissesATweak`).
- handlers.go:1086 compares an end height after narrowing it to 32 bits, so heights past every
  chain are accepted; the accepted ones within the chain are exactly those that fit
  (`Import.AcceptedEnds`, `Import.WideHeightIsAccepted`, `Import.HalfwayHeightBreaksOff`).
- header-files.go:146-148 calls the linkage of a file's first header implied. It is not compared
  with the previous file, and nothing is claimed about it.
- verify.go:278-280 says that the filter closures cover the interior of a filter-header file. They
  compare only filter-file ends (verify.go:581-602), and only those are claimed.

## Model

| member | source | states |
|---|---|---|
| ProducerLog.StepKeepsGood | file-producer.go:189-251 | every ingest, write, promotion, rollback and restart keeps the height window, the file alignment and the directory contents consistent |
| ProducerLog.StepRefinesLog | file-producer.go:189-360 | disk plus memory changes as an append-and-cut log: writing and pruning leave it alone, rollback cuts strictly above what is on disk, restart cuts to it |
| ProducerLog.StepKeepsDurable | file-producer.go:219-251 | no step removes or changes anything on disk; only a write adds, and only the next file |
| ProducerLog.RunRefinesLog | file-producer.go:109-360 | every run, crashes included, refines a run of the specification log |
| ProducerLog.FrozenPrefix | file-producer.go:215-251 | what is on disk is a prefix of the log in every later state, file by file |
| ProducerLog.NoFileWrittenTwice | file-producer.go:219-251 | a run writes the next files in order, none twice, restarts included |
| Schedule.ReorgReplaces | file-producer.go:353-360 | a block fetched after a rollback stands where the first given-up one stood |
| Schedule.DeathLeavesTheDisk | file-producer.go:109-133 | however a process ends, the next one starts with exactly what is on disk, one file more only if that was written completely |
| Producer.Producer.Ingest | file-producer.go:27 | one height is stored, or nothing changes |
| Producer.Producer.Prune | file-producer.go:37 | exactly the inclusive range leaves memory |
| Producer.Producer.SealFile | file-producer.go:236-249 | a complete seal is promoted, a refused one changes nothing, and one that breaks off leaves the file a restart looks for without being promoted |
| Producer.Producer.SealReadyFiles | file-producer.go:219-251 | sealing terminates, leaves the log alone, succeeds exactly if nothing overdue is left, and fails only at a file that is due and whose seal did not complete |
| Producer.Producer.UpdateCacheAndFiles | file-producer.go:189-213 | a catch-up takes legal steps only, stores at every height what the backend answered for it at some moment, writes each file at the very height that makes it reorg-safe, and fails only where the next height could not be fetched or the due file not sealed |
| Producer.Producer.TipReorged | file-producer.go:256-277 | a reorg is reported exactly if both hashes are known and differ |
| Producer.Producer.FindCommonAncestor | file-producer.go:328-347 | the highest unsealed height where both sides agree, or the last sealed height; a failed question fails the walk |
| Producer.Producer.Rollback | file-producer.go:353-360 | memory keeps exactly the heights up to the cut, which becomes the tip, as the specification's rollback does, and the shared cache is told to forget what lies above |
| Producer.Producer.HandleReorg | file-producer.go:285-322 | keeps everything, cuts at the highest agreeing unsealed height, refuses, or fails at the first question of the walk without an answer; only the cut changes state |
| Producer.ReorgIsDetermined | file-producer.go:285-347 | these cases exclude each other, so each outcome occurs exactly when its case holds |
| Producer.ReorgExactly | file-producer.go:285-347 | on the backend's answers: kept exactly if the tip's hash is the answer; failed exactly if that answer is missing, or differs and all on the walk differ down to a missing one; cut exactly at the first equal one; refused exactly if all unsealed ones differ |
| Producer.ReorgWithBackendStill | file-producer.go:285-347 | if the backend answers the questions of the walk from one chain: kept exactly if the tip is on it, cut to a height exactly if that is the highest one on it, refused exactly if none is, never failed |
| Producer.Producer.PollOnce | file-producer.go:146-182 | a round does nothing exactly if the height is the same and the tip is not known to differ; otherwise the log is kept, cut at the height the walk finds, or left alone with the round failed, each exactly in the case of the reorg specification at that moment, and then extended to the backend's height with what it answers meanwhile; legal and timely, and failing only for a reason that holds in the state it leaves |
| Producer.RoundEndsOnTheChain | file-producer.go:146-182 | if the backend answers and fetches from one chain during a round that gets through, every height in memory has that chain's hash afterwards, whatever chain was there before, if both chains' blocks name their parents |
| Producer.Producer.Restart | file-producer.go:109-133 | a new process resumes behind the last file of the directory |
| Producer.Producer.UpdateFiles | file-producer.go:109-184 | a whole process, whatever the backend answers, takes legal, timely steps from the restarted state: caught up to the block count, then one such round for every tick in turn; it gets through exactly with all of them done, and ends early only in a round that failed, for a reason that holds, or without a block count |
| Producer.Producer.Kill | file-producer.go:236-249 | a kill leaves the files a restart looks for, of the state before or after the write that was due, whether or not the rest of its batch was written |
| Producer.Lifetimes | file-producer.go:109-251 | over any sequence of processes and kills, every file on disk was let through by the producer's own check at some moment, and every entry in it is what the backend answered for its height |
| Producer.RestartedAfterAnyCrash | file-producer.go:109-133 | killing the process at any step, even between a write and its promotion, leads to the state a restart starts from |
| Producer.WindowOnBackendChain | file-producer.go:285-360 | after a rollback to an agreeing height everything left in memory is on the chain the backend answers from, if the ingested blocks are parent-linked |
| Producer.MemoryStaysBounded | file-producer.go:189-251 | in every state of a timely run memory holds at most a file plus the safe depth |
| FileNames.LastFile | cfilter-files.go:320-346 | the end height in the lexicographically last name, no files, or an unparseable name |
| FileNames.LookupFindsTheEnd | cfilter-files.go:307-346 | for the files of a producer this is the end of the last sealed file, exactly as long as heights fit seven digits |
| FileNames.NameOrder | cfilter-files.go:33-36 | names sort by start height |
| FileNames.ExtractName | cfilter-files.go:33-34 | the end height is read back from a name |
| FileNames.FirstName | cfilter-files.go:35 | the name of the first filter file, character by character |
| FilterChain.LinkCollision | custom-filter-files.go:343-348 | one filter header determines its filter and predecessor, or gives a collision |
| FilterChain.FoldCollision | custom-filter-files.go:343-348 | equally long filter runs that close on one header have one start and the same filters, or give a collision |
| FilterChain.HeaderCollision | header-files.go:128-164 | equally long linked header runs with one last hash are equal, or give a collision |
| FilterChain.AuthFilterHeaderExtends | cfilter-files.go:150-176 | along one chain the reported filter headers are one fold |
| FilterChain.FoldOfTwo | custom-filter-files.go:343-348 | on bytes: each header is the hash of the filter's hash followed by the header before, the first behind 32 zero bytes |
| FilterChain.PrevBlockField | verify.go:222-232 | bytes 4 to 35 of a serialized block header are the previous block's hash |
| CustomFilters.CustomFilterFiles.Ingest | custom-filter-files.go:286-338 | a height's filters, hash and headers are stored together, as the chain's next row, or nothing is |
| CustomFilters.CustomFilterFiles.NextHeaders | custom-filter-files.go:314-328 | every configuration's next header is the hash of its filter on its previous one |
| CustomFilters.CustomFilterFiles.PrevFilterHeaders | custom-filter-files.go:355-371 | the row the next height chains onto: zero, from memory, or resumed from disk |
| CustomFilters.CustomFilterFiles.ReadHeaderFileAnchor | custom-filter-files.go:407-438 | the last header of every configuration's header file, exactly if all files have their full size |
| CustomFilters.CustomFilterFiles.RebuildFilterHeaders | custom-filter-files.go:445-505 | walks file by file and configuration by configuration, succeeds exactly if every file holds exactly one file's entries, and stores and returns the folds of what it read |
| CustomFilters.CustomFilterFiles.ResumeFilterHeaders | custom-filter-files.go:380-402 | a restarted producer gets the chain state of its log at the last sealed height, and memory holds the log's rows |
| CustomFilters.CustomFilterFiles.RebuiltIsTheLog | custom-filter-files.go:445-505 | a rebuilt row is the row height-by-height ingest stored |
| CustomFilters.CustomFilterFiles.SerializeFilterHeaders | custom-filter-files.go:710-730 | one configuration's column of headers, or failure at a gap |
| CustomFilters.CustomFilterFiles.WriteFilterHeaderFiles | custom-filter-files.go:607-635 | all header files of a complete span hold the fold; memory is pruned only after the last one |
| CustomFilters.CustomFilterFiles.WriteSealedFile | custom-filter-files.go:546-587 | complete exactly if the disk takes all the batch's writes; wherever the batch stops, the directory is as durable as before and untouched outside the batch; it is one file further exactly after the last write |
| CustomFilters.CustomFilterFiles.WriteFilterFiles | custom-filter-files.go:556-569 | the configurations are written downwards, so the resume file comes last |
| CustomFilters.CustomFilterFiles.Prune | custom-filter-files.go:595-600 | filters and hashes of the range go, header rows stay |
| CustomFilters.CustomFilterFiles.Rollback | file-producer.go:353-360 | filters above the height go, header rows above it stay behind without being part of the chain, and the shared cache is told to forget |
| CustomFilters.CustomFilterFiles.Restart | file-producer.go:109-133 | resumes behind the last complete batch; the log is cut to it |
| CustomFilters.CustomFilterFiles.Run | custom-filter-files.go:286-635 | for every schedule of blocks, failures, seals that break off after any number of writes, rollbacks, kills and restarts off the file names, the log is what the schedule leaves of it event by event; and every filter header from the open header span to the tip is the fold from the zero header over that configuration's filters |
| CustomFilters.BlockAfterReorg | file-producer.go:353-360 | in what a schedule leaves, the row fetched after a rollback replaces the given-up ones |
| CustomChain.HeadersSurviveRollback | custom-filter-files.go:286-338 | stale rows above a rollback do not disturb the rows of the cut chain |
| CustomChain.LeftoversAreHarmless | custom-filter-files.go:546-569 | files of an interrupted batch are overwritten before anything reads them |
| CustomChain.ResumeFileImpliesBatch | custom-filter-files.go:546-569 | the resume configuration's file implies every other file of its batch and every header file whose span ends by then |
| CFilters.CFilterFiles.Ingest | cfilter-files.go:100-124 | the filter and hash of whatever block the shared cache names, or nothing |
| CFilters.CFilterFiles.VerifyFilters | cfilter-files.go:150-204 | passes exactly if every height is in memory and the range closes between its anchors |
| CFilters.CFilterFiles.WriteSealedFile | cfilter-files.go:126-142 | refused exactly if the check fails; otherwise the serialized range is written, or the disk does not take it; only a written file changes anything |
| CFilters.ForeignFilterCollision | cfilter-files.go:150-204 | if it passes, all filters are those of the ancestors of the block named at the range's end, whatever chains memory mixes, or a collision comes out |
| CFilters.RightFiltersPass | cfilter-files.go:150-204 | with a start anchor on the same chain and both anchors answered, the right filters always pass |
| Headers.HeaderFiles.Ingest | header-files.go:65-95 | block header and filter header are stored through one block hash, or neither is |
| Headers.HeaderFiles.Prune | header-files.go:168-173 | exactly the inclusive range goes from both maps |
| Headers.HeaderFiles.VerifyHeaders | header-files.go:128-164 | passes exactly if the range is in memory, linked, and ends in the block the backend names |
| Headers.HeaderFiles.WriteSealedFile | header-files.go:99-123 | refused exactly if the check fails or the disk takes nothing, and then nothing changes; otherwise the header file of exactly this range, and its filter-header file exactly if the disk takes that too |
| Headers.SealedCollision | header-files.go:128-164 | however ingests and reorgs interleave, a checked range holds the ancestors of the named block, or a collision comes out |
| Headers.FilterHeadersFollow | header-files.go:102-110 | then every filter header next to them is the one the backend reports for that ancestor |
| Headers.RightHeadersPass | header-files.go:128-164 | the ancestors of the named block always pass |
| SealedFiles.HeaderFileIsOneChain | header-files.go:65-164 | over any such sequence, a header file on disk holds at every height the header of that ancestor of the block the backend named for the file's end at some moment, and its filter-header file, where that was still written, the filter header; or a collision comes out |
| SealedFiles.FilterFileIsOneChain | cfilter-files.go:100-204 | likewise a filter file holds the filters of the ancestors of the block named for its end when it was sealed |
| SealedFiles.SameCheck | header-files.go:128-164 | the check assumed of the header hook is the one on the producer's memory |
| Verify.Verifier.VerifyOneHeaderFile | verify.go:207-276 | a header file is reported exactly if its size, genesis, linkage or anchor is wrong; only a good one moves the running hash, a bad one leaves it |
| Verify.Verifier.VerifyFilterHeaderAnchor | verify.go:281-333 | a filter-header file is reported exactly if its size or last entry is wrong |
| Verify.Verifier.VerifyMemoryTail | verify.go:341-476 | the unsealed range of the running server is reported exactly if its headers do not continue the chain or an anchor at the highest reorg-safe height is wrong; fails exactly at an unreadable answer |
| Verify.Verifier.VerifyHeaderFiles | verify.go:173-202 | exactly the bad ones among all files up to the first missing one are reported, then what is bad behind them |
| Verify.Verifier.LoadFilterHeaders | verify.go:694-723 | the cache is filled from the sealed file if there is one |
| Verify.Verifier.StoredFilterHeader | verify.go:661-689 | a height in a sealed file is answered from that file, whatever was cached; another from what the server answers at some moment, and that there is none only from an answer during the call |
| Verify.Verifier.CheckFilterChain | verify.go:576-604 | passes exactly if the filters close between the stored headers, sealed or the server's |
| Verify.Verifier.VerifyOneFilterFile | verify.go:503-571 | a filter file is reported exactly if it does not parse or does not close |
| Verify.Verifier.VerifyFilterFiles | verify.go:483-499 | exactly those among all files up to the first missing one are reported, and no others |
| Verify.Verifier.Run | verify.go:107-165 | a run without repair that gets through lists exactly the files that fail their checks and what is bad about the unsealed range, and nothing else |
| VerifySound.CleanHeadersAreTheBackends | verify.go:173-276 | after a run that lists nothing, every sealed header file is the backend's, or a collision comes out |
| VerifySound.OneFileBack | verify.go:576-604 | a closing filter file with a right end is right throughout, start anchor included, or a collision comes out |
| VerifySound.CleanSpanIsTheBackends | verify.go:281-604 | after a run that lists nothing, in every sealed header span with all its filter files each filter and each stored header at a file end is the backend's, or a collision comes out |
| VerifySound.HeaderFileCollision | verify.go:207-276 | a header file that passes holds the backend's headers of its range, or a collision comes out |
| VerifySound.TailHeadersCollision | verify.go:412-452 | unsealed headers that pass are the backend's up to the highest reorg-safe one, or a collision comes out |
| VerifyComplete.RightHeadersPass | verify.go:207-276 | the backend's headers of a range, behind the backend's hash or at the genesis block, are not reported, and the running hash becomes the backend's at their end |
| VerifyComplete.FilterHeadersExactly | verify.go:281-333 | a filter-header file passes exactly if it has its size and its last 32 bytes are the filter header the backend reports at its end |
| VerifyComplete.RightFiltersClose | verify.go:503-604 | the encoding of the backend's filters between right stored headers, sealed or the server's, is not reported |
| VerifyComplete.RightTailPasses | verify.go:341-476 | unsealed headers that are one chain behind the sealed ones, and unsealed filter headers, both the backend's at the highest reorg-safe height, are not reported |
| VerifyComplete.TailListed | verify.go:341-476 | read from whole records, exactly the kind that fails is listed |
| VerifyComplete.TailReadable | verify.go:344-390 | the run goes on exactly if both answers are there and hold whole records, at least one |
| VerifyComplete.NothingIsListed | verify.go:107-165 | where every file holds the backend's bytes, the backend answers about the file ends and the unsealed range is right, a run gets through and lists nothing |
| VerifyComplete.RunChecker | verify.go:107-165 | a run establishes what these results assume; with everything right it lists nothing |
| Wire.CompactSizeRoundTrip | cfilter-files.go:298 | a CompactSize count reads back, with what follows it |
| Wire.CompactSizeCanonical | custom-filter-files.go:511-537 | only the shortest form of a count is accepted |
| Wire.CompactSizeForms | cfilter-files.go:298 | the four forms of a count, byte for byte |
| Wire.LittleEndianDigit | handlers.go:769-775 | digit i of a little-endian integer counts the 256 to the power of i |
| Wire.VarBytesRoundTrip | cfilter-files.go:298 | a length-prefixed string reads back exactly if it fits the reader's cap |
| Wire.VarBytesTruncated | custom-filter-files.go:511-537 | no proper prefix of one reads as a value |
| FilterFile.SerializeFilters | cfilter-files.go:289-305 | writes the range, or stops at the first missing height |
| FilterFile.FiltersSize | cfilter-files.go:271-287 | exists exactly when serialization succeeds and is its byte length |
| FilterFile.ReadFilterFile | custom-filter-files.go:511-537 | the restart reader's entries and whether it ended cleanly |
| FilterFile.ReadExactly | verify.go:773-795 | the verifier's reader: exactly `n` filters and nothing behind them |
| FilterFile.ScanRoundTrip | custom-filter-files.go:511-537 | the restart reader gives back what was written, exactly if every filter fits its cap |
| FilterFile.TruncatedScan | custom-filter-files.go:511-537 | a file cut short never shows all its entries |
| FilterFile.ParseExactlyAccepts | verify.go:773-795 | accepted are exactly the encodings of `n` filters within the cap |
| Import.SerializeEntries | header-files.go:226-242 | the memory tail of a range, or a stop at the first gap |
| Import.StreamFiles | handlers.go:782-814 | the file part of an import is the log up to the end or up to what is sealed |
| Import.ServeImport | handlers.go:728-833 | an import is the 10-byte metadata and the entries 0 to end-1 once and in order, from files, memory or both, with the end as the 32-bit arithmetic has it; a failure only breaks it off |
| Import.ImportFields | handlers.go:769-775 | the bytes of a complete answer: network, version 0, file type and start height 0 at their places, the entries from byte 10 on |
| Import.ImportRequest | handlers.go:656-681 | the numeric route: checked, then the same |
| Import.ImportLatest | handlers.go:688-703 | the latest route is the numeric request for tip + 1 |
| Import.AcceptedEnds | handlers.go:1077-1097 | an accepted end height lies within the chain exactly if it fits an int32, and then gets the metadata and entries 0 to end-1, or is refused as sealed but no file end |
| Import.EndsWithinTheChain | handlers.go:1077-1097 | up to int32, exactly the ends from 1 to the tip + 1 are accepted |
| Import.WideHeightIsAccepted | handlers.go:1086 | 2^32 is accepted, and answered with what is sealed |
| Import.HalfwayHeightBreaksOff | handlers.go:829 | 2^31 is accepted, and its answer breaks off behind the whole of memory |
| Import.DiskAnswersNeverChange | handlers.go:656-681 | an import request answered cacheable for a year gets sealed entries only, and the same bytes in every later state, over reorgs and restarts |
| Import.DiskRangesNeverChange | handlers.go:602-621 | so does a range request answered from a sealed file |
| Import.RangeRequest | handlers.go:577-654 | one sealed file, memory from the start height to the tip, or a refusal for a misaligned, too high or unnamed start |
| Import.RangeServes | handlers.go:577-654 | a start within the chain is refused exactly if it is misaligned, or unsealed without a name; otherwise it gets its sealed file, or everything from it to the tip |
| Import.RangePastTheTip | handlers.go:1061-1075 | a start past the tip is refused, if it fits an int32 |
| Import.DownloadIsTheLog | handlers.go:577-654 | the answers for 0, E, 2E and so on are together the whole log |
| SPTweaks.MaxTaproot | silent-payments-files.go:366-376 | the largest taproot output value after the conversion to uint64, zero if there is none |
| SPTweaks.IndexBlock | silent-payments-files.go:334-388 | one entry for each eligible transaction, in order; a failed key computation fails the block |
| SPTweaks.SPTweakFiles.Ingest | silent-payments-files.go:237-272 | the entry and hash of a height; empty before taproot, and left empty by a failure |
| SPTweaks.SerializeSPTweaks | silent-payments-files.go:395-441 | the file header and one counted record for each height, or failure at a gap |
| SPTweaks.SPTweaksSize | silent-payments-files.go:446-471 | exists exactly when serialization succeeds and is the file's byte length |
| SPTweaks.FileRoundTrip | silent-payments-files.go:87-99 | walking the counts recovers the header fields and, for each block, exactly the tweaks above the dust limit in order |
| SPTweaks.FileFields | silent-payments-files.go:395-441 | version 0, type 2 and the header fields at their places |
| SPTweaks.BlockLayout | silent-payments-files.go:411-438 | a block is the count of its kept tweaks, then these, 33 bytes each |
| SPTweaks.LevelsNest | silent-payments-files.go:395-441 | a higher level is a subsequence of a lower one |
| SPTweaks.LevelsComeFromTransactions | silent-payments-files.go:334-441 | a level keeps the tweaks of exactly the eligible transactions with a taproot output above its limit, in transaction order |
| SPTweaks.LevelMembers | silent-payments-files.go:334-441 | a tweak is in a level exactly if it is one of a transaction other than the coinbase with a taproot output above the limit |
| SPTweaks.LevelZero | silent-payments-files.go:55-64 | level zero keeps every tweak of a block exactly if each eligible transaction has a taproot output worth something |
| SPTweaks.LevelZeroMissesATweak | silent-payments-files.go:418 | a block whose tweak level zero leaves out |
| SPTweaks.SPTweakFiles.WriteSealedFile | silent-payments-files.go:279-313 | levels are written downwards; wherever that stops, the resume file is there only with all the others, and exactly if the batch is complete |
| SPTweaks.SPTweakFiles.Run | silent-payments-files.go:237-313 | over every schedule of blocks, failures, seals that break off after any number of writes, rollbacks, kills and restarts off the file names, the log of fetched blocks is what the schedule leaves event by event, memory and sealed ranges hold its entries, and a range has its resume file exactly if it lies below the last completed batch |
| SPTweaks.SealedFilesHoldTheLog | silent-payments-files.go:237-313 | then every level's file of a sealed range decodes to the tweaks of exactly the transactions of that range's blocks that the level is for |
| SPTweaks.LevelFilesNest | silent-payments-files.go:64-313 | each level's file decodes, block by block, to a subsequence of the file one level below |
| SPTweaks.TheLevels | silent-payments-files.go:64 | level 0 is the unfiltered one; the others are 600, 1000 and 3750 |
| SPTweaks.ResumeFileImpliesBatch | silent-payments-files.go:274-294 | with the resume file there, every level's file decodes to its part of one list of blocks |
| SpentTxOuts.ParseSpentTxOuts | block-prevouts.go:462-525 | the loop computes the reference parser |
| SpentTxOuts.ParseAccepts | block-prevouts.go:462-525 | accepted are exactly the encodings of lists within the caps, each as these lists |
| SpentTxOuts.OneSpentOutput | block-prevouts.go:462-525 | on bytes: a block whose second transaction spends one output |
| SpentTxOuts.TruncatedIsRejected | block-prevouts.go:462-525 | every truncation is rejected |
| SpentTxOuts.TrailingIsRejected | block-prevouts.go:518-522 | every trailing byte is rejected |
| SpentTxOuts.PairInputs | block-prevouts.go:421-451 | fails exactly if the shapes differ; otherwise the map is filled pair by pair without the coinbase |
| SpentTxOuts.LastPairWins | block-prevouts.go:447-450 | the keys are the spent outpoints, each with the script paired last |
| SpentTxOuts.KeysAreSpent | block-prevouts.go:428-451 | the keys are exactly the outpoints that transactions other than the coinbase spend |
| SpentTxOuts.InputsFindTheirScripts | block-prevouts.go:428-451 | if no outpoint is spent twice, every input finds the script at its own position |
| Prefetcher.BlockPrefetcher.ScheduleAhead | block-prevouts.go:305-327 | starts the fetches the reference schedule starts |
| Prefetcher.ScheduleFills | block-prevouts.go:305-327 | the window is filled exactly up to the first height without a hash; pending entries stay |
| Prefetcher.BlockPrefetcher.FetchBlock | block-prevouts.go:278-300 | after any calls, the block of exactly the requested hash, or nothing exactly if the direct fetch was needed and failed |
| Prefetcher.WindowStep | block-prevouts.go:278-300 | one call on a steady run moves the window by one height and fetches at most one new one |
| Prefetcher.ConsecutiveRunFetchesOnce | block-prevouts.go:278-327 | on a steady consecutive run pending is exactly the contiguous window and every height is fetched exactly once |
| H2HCache.HeightToHashCache.GetBlockHash | height-to-hash-cache.go:88-114 | a hit is answered as it is; a miss gets the backend's answer, which is then stored over whatever the other producers stored for the height in between |
| H2HCache.HeightToHashCache.StoreFetched | height-to-hash-cache.go:101-108 | the store step after a fetch |
| H2HCache.HeightToHashCache.Drop | height-to-hash-cache.go:121-129 | no entry at or above the height is left, and no other is lost |
| H2HCache.HeightToHashCache.LoadFromHeaders | height-to-hash-cache.go:35-84 | files of whole headers always load: the cached heights are exactly 0 to the best one, with 80 bytes each, and every header of every file gives the hash at its place behind the headers of the files before; otherwise a load that succeeds numbers the complete headers |
| H2HCache.NumberedIsLoaded | height-to-hash-cache.go:56-82 | numbering the headers of all files in order is that |
| H2HCache.RunStaysBounded | height-to-hash-cache.go:88-129 | however fetches, stores and invalidations of all producers interleave, no cached height is above the best height |
| H2HCache.InvalidationIsComplete | height-to-hash-cache.go:121-129 | hence an invalidation removes every entry at or above its height although it stops at the best height |
| H2HCache.UnboundedEntrySurvives | height-to-hash-cache.go:121-129 | without that bound an entry would survive its invalidation |
| H2HCache.CacheHoldsTheLastWord | height-to-hash-cache.go:88-129 | a cached hash is the one last stored since the last invalidation that covers its height |
| H2HCache.StaleAnswerStays | height-to-hash-cache.go:88-129 | an answer fetched before a reorg and stored after the invalidation stays |

## Left out

- RPC and REST clients, HTTP plumbing and status codes, command line, logging, fee estimation, JSON routes.
- Golomb-coded set construction, Silent Payments key arithmetic, SHA-256 and transaction parsing: libraries that are not part of this model. wire.ReadVarInt and wire.ReadVarBytes are modelled from the CompactSize encoding.
- Mutexes and goroutines as such: steps that hold a lock are atomic, and the fetch and store halves of the hash cache are separate steps. The rollback of a producer and the invalidation of the shared cache are modelled in their own modules.
- Partially written files, and requests that race with a seal.
- Batch durability for the header producer: it writes its resume file first (header-files.go:114-122), so the claim does not hold there.
- Linkage between consecutive header files at seal time, and interior filter headers in the offline check: the code does not compare them.
- The repair mode of the offline checker.
- What header.Deserialize says about a file that breaks off inside a header: it is a library's, so `H2HCache.HeightToHashCache.LoadFile` leaves it open.
- One class for the shared loops and the hooks together: `Producer` has the loops with arbitrary hooks, as function values, and each producer's own class has its hooks as methods.
- Custom filters above 32 MiB, the restart reader's cap: the rows of `CustomFilters` stay below it, and `FilterFile.ScanRoundTrip` says exactly what the reader does past it.
- Directory creation, the warning about legacy files, and the idle mode on networks without taproot.
