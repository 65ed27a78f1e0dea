# Block and vote authorship collector — a Dafny model

The collector connects to a Subspace node and walks the chain backwards. It
starts at block `START_AT_BLOCK` and stops after block `STOP_AT_BLOCK`. For
every block it writes one row to a CSV file, naming the block's reward
address, taken from the block's pre-runtime digest. After that row it writes
one row for every `subspace.FarmerVote` event in the block's event log. The
file starts with the column header `block_number,author_type,reward_address`.

This project models that program:

- `Wrappers`: the `Option` type.
- `Sequences`: three generic facts about sequences, used by the proofs.
- `Csv`: the rows and the exact text of each line. It renders block numbers
  in decimal and includes a reader, so the line format is proved to round-trip.
- `Subspace`: what the node serves, namely block hashes by number and headers
  by hash. Each header carries its decoded digest and its event log. This
  module also holds the FarmerVote filter and the vote rows it produces.
- `Traversal`: the walk as a specification function `Walk` and the lemmas
  about it. The lemmas cover where the walk stops, the order of visited
  blocks, the rows written and the progress messages.
- `Config`: the environment options and the checks made on them at start-up.
- `Collector`: the imperative program. `OutputFile` is a class for the open
  file and its appends. `EmitVotes` and `Traverse` are the loops, and
  `EmitBlock` writes one block's rows. `Run` is the whole of `main`. Each method is proved against the functions
  of `Traversal`.

Chain access is abstracted as lookups in two maps. `getBlockHash(n)` is a
lookup in `hashAt`, and `getHeader(hash)` is a lookup in `headers`. A lookup
that misses aborts the run with a distinct error. The event log that
`system.events.at(hash)` returns is stored in the header, so that query
cannot fail on its own (see "Left out"). A header without a pre-runtime log
aborts with `MissingDigest`, and no row is written for that block.

`WellFormed` states what the walk relies on:

- A served header's parent, if served, is numbered one less.
- `hashAt[n]` names a header numbered n.

These two facts are enough for termination. The genesis header's parent is
never served, so the walk ends on every input. The program has no genesis
guard, and the model adds none: a walk that starts below the stop block never
meets it and fails. The stop check comes after the block's rows are written,
so the stop block's rows are always in the output. An unset start block
defaults to 0, as the stop block does.

## Model

| member | source | states |
|---|---|---|
| Config.Load | src/index.ts:6-19 | A missing or empty `WS_URL` refuses the run with status 1, and it is checked first. A missing or empty `OUTPUT` refuses it with status 2. Otherwise the URL and path are kept, and each block option is its given value or 0 when unset. |
| Config.Given | src/index.ts:11-16 | Defines the `!wsUrl` and `!output` tests: a text option counts as given only when it is set and not empty. `Config.Load` states the exit status that follows when it fails. |
| Config.BlockOption | src/index.ts:6-7 | Defines the default of a block option: its value when given, 0 otherwise. `Config.Load`, `Config.DefaultsProcessOnlyGenesis` and `Config.DefaultsVisitGenesisOnly` state what follows from it. |
| Config.DefaultsProcessOnlyGenesis | src/index.ts:6-7 | With both block options unset, start and stop are 0. Whatever genesis carries, the walk visits at most one block, numbered 0, and finishes exactly when it visits it. A genesis header without a pre-runtime log yields no visit. |
| Config.DefaultsVisitGenesisOnly | src/index.ts:6-7 | With both block options unset and genesis served with its digest, the walk visits exactly block 0 and finishes. |
| Csv.DecimalString | src/index.ts:64 | The block number is rendered as a non-empty run of digits with no leading zero; 0 is rendered as exactly `0`. |
| Csv.DecimalRoundTrip | src/index.ts:64 | Reading the rendered block number back gives the number. |
| Csv.LineRoundTrip | src/index.ts:64 | A written block or vote line reads back as exactly the row it records: number, author type and address, for any address. |
| Csv.Line | src/index.ts:64-73 | Defines the text of one row: decimal block number, `,`, `block` or `vote`, `,`, the address, then a newline. `Csv.LineRoundTrip` and `Csv.HeaderIsNotARow` state its properties. |
| Csv.HeaderLine | src/index.ts:49 | Defines the column header line the file starts with. `Csv.HeaderIsNotARow` states that it cannot be mistaken for a data line, and `Collector.Run` that it is written first. |
| Csv.HeaderIsNotARow | src/index.ts:49 | The column header line never reads as a row and differs from every data line. |
| Subspace.IsFarmerVote | src/index.ts:71 | Defines the filter: section `subspace` and method `FarmerVote`, both required. `Subspace.NoVoteRowsIff` and `Subspace.VoteRowsAreVotes` state what it selects. |
| Subspace.VoteAddress | src/index.ts:72-73 | Defines a vote row's address: the event's second data field, or `undefined` when the event has fewer than two fields. `Subspace.VoteRowsAreVotes` ties every vote row to it. |
| Subspace.EventRows | src/index.ts:71-73 | Defines the rows of one event: one vote row with the block's number and the event's `VoteAddress` when `IsFarmerVote` holds, none otherwise. `Subspace.NoVoteRowsIff` and `Subspace.VoteRowAt` state what it contributes. |
| Subspace.VoteRows | src/index.ts:68-75 | Defines the vote rows of one block's event log: each event's rows, in log order. `Subspace.VoteRowsAreVotes`, `Subspace.NoVoteRowsIff`, `Subspace.VoteRowAt` and `Subspace.VoteRowsAppend` state its properties, and `Collector.EmitVotes` is proved to append exactly its lines. |
| Subspace.VoteRowsAreVotes | src/index.ts:68-75 | Every vote row of a block carries that block's number and the `vote` type. Its address is the second data field of one of the block's `subspace`/`FarmerVote` events. |
| Subspace.NoVoteRowsIff | src/index.ts:71 | A block yields no vote row if and only if none of its events has section `subspace` and method `FarmerVote`. |
| Subspace.VoteRowAt | src/index.ts:68-75 | Each FarmerVote event at position i yields its own row. That row comes after the rows of the events before i and before the rows of the events after i, so vote rows keep the event log's order. |
| Subspace.VoteRowsAppend | src/index.ts:68-75 | The vote rows of two event logs placed one after the other are the rows of the first log followed by the rows of the second. |
| Traversal.Walk | src/index.ts:51-87 | Defines the loop as a specification: fetch the header at the cursor, fail on an unknown hash or a missing digest, record the visit, finish at the stop block, otherwise continue from the parent hash. The `Walk` lemmas below state its properties, and `Collector.Traverse` is proved equal to it. |
| Traversal.WalkEndsAtStop | src/index.ts:77-79 | The walk finishes exactly at the first visited block numbered `stopAtBlock`. That block is the last one visited and the only visited block with that number. |
| Traversal.WalkFollowsParents | src/index.ts:51-87 | The first visit is at the start block's hash. Each later visit is at the parent hash of the visit before it. Every visit is the header the node serves at its hash. A walk that fails on an unknown hash fails on the parent hash of its last visit, or on the start hash when nothing was visited. |
| Traversal.WalkDescends | src/index.ts:51-87 | The i-th visited block is numbered start minus i, so blocks are visited once each in strictly descending order, and at most start + 1 of them. |
| Traversal.WalkCanonical | src/index.ts:51-87 | On an unbroken served chain from `startAtBlock >= stopAtBlock` down to the stop block, the walk finishes. It visits exactly the blocks start, start-1, ..., stop, each with the digest and events of that block. |
| Traversal.WalkPastGenesis | src/index.ts:77-87 | A walk that starts below `stopAtBlock` never finishes: with no genesis guard it fails. |
| Traversal.ProcessedCount | src/index.ts:53-81 | Defines `processedBlocks` when the loop ends: the number of visits, less one when the walk finished at the stop block. `Traversal.WalkProcessedCount` states what it counts, and `Collector.Traverse` is proved to return it. |
| Traversal.WalkProcessedCount | src/index.ts:53-81 | `processedBlocks` counts exactly the visited blocks other than the stop block. |
| Traversal.BlockRows | src/index.ts:64-75 | Defines one visited block's rows: its block row, then the vote rows of its event log. `Traversal.OneBlockRowPerVisit`, `Traversal.StopBlockRowsLast` and `Traversal.RowsDescending` state its properties, and `Collector.EmitBlock` is proved to append exactly its lines. |
| Traversal.Rows | src/index.ts:64-87 | Defines the data rows of the file for a sequence of visits: each visit's `BlockRows`, in visiting order. `Traversal.StopBlockRowsLast`, `Traversal.OneBlockRowPerVisit`, `Traversal.RowsDescending` and `Traversal.WalkRowsDescending` state its properties, and `Collector.Traverse` and `Collector.Run` are stated through it. |
| Traversal.StopBlockRowsLast | src/index.ts:64-79 | A finished walk's rows end with the stop block's block row and then its vote rows, so the stop block is always in the output. |
| Traversal.OneBlockRowPerVisit | src/index.ts:57-64 | The block rows in the output are exactly one per visited block, in visiting order. Each carries the block's number and the reward address of its digest. |
| Traversal.NoBlockRowsAmongVotes | src/index.ts:73 | Vote emission never writes a `block` row. |
| Traversal.RowsDescending | src/index.ts:64-87 | Rows written for blocks visited in strictly descending order are in non-increasing block-number order. |
| Traversal.WalkRowsDescending | src/index.ts:51-87 | Every walk's output is ordered by descending block number. |
| Traversal.ProgressLog | src/index.ts:81-85 | Defines the progress messages after n processed blocks: one message each time the counter reaches a multiple of 1000. `Traversal.ProgressLogExact` and `Traversal.ProgressMessageIff` state its contents. |
| Traversal.ProgressLogExact | src/index.ts:81-85 | After n processed blocks, the progress messages are exactly 1000, 2000, ... up to n, in order. |
| Traversal.ProgressMessageIff | src/index.ts:83-85 | A progress message for count k is logged if and only if k is a positive multiple of 1000 that the counter has reached. |
| Collector.OutputFile.Open | src/index.ts:48 | Opening the output path for writing starts an empty, open file. |
| Collector.OutputFile.Append | src/index.ts:64 | Each append adds its text after everything already written. |
| Collector.OutputFile.Close | src/index.ts:90 | Closing marks the file closed. |
| Collector.EmitVotes | src/index.ts:66-75 | The loop over the event log appends exactly the lines of the block's vote rows. |
| Collector.EmitBlock | src/index.ts:57-75 | A block's block line is appended first, then its vote lines. |
| Collector.Traverse | src/index.ts:51-88 | The `while (true)` loop ends with the status of `Walk`. The file gains exactly the lines of the visited blocks' rows. `processedBlocks` equals the count of non-stop visits, and the progress messages are those of that count. |
| Collector.Run | src/index.ts:42-95 | Refused options give status 1 or 2 with no file opened. Otherwise the file holds the header line, then the rows of every visited block. An unknown start block aborts after only the header. A finished walk closes the file, logs the finish and exits with status 0. A failed walk aborts with its error and leaves the file open. |

## Left out

- Connecting to the node (`WsProvider`, `ApiPromise.create`) and every RPC call are not modelled. They become lookups in the `Chain` maps. A transport failure is not modelled. A hash or number the node does not know is modelled as an abort, because what the RPC library returns for it is outside this model.
- SCALE decoding of `SubPreDigest` (`createType`) is a library call. Headers carry the already-decoded digest. A missing pre-runtime log is modelled as the `MissingDigest` abort.
- Addresses and event data fields are kept as their rendered text. SS58 encoding is not modelled. A FarmerVote event with fewer than two data fields renders its address as `undefined`, which is what destructuring and a template literal give.
- `parseInt` is not modelled. `STOP_AT_BLOCK` and `START_AT_BLOCK` are given as already-parsed `Option<nat>` values, with `None` for unset or empty. A non-numeric or negative value is not modelled.
- Console output is reduced to a `Message` sequence: the start message, progress counts and the finish message. The `console.error` texts for refused options are left out, because the exit status carries them. The finish message's exact text is not modelled.
- The un-awaited header append is modelled as written first. The asynchronous ordering of file writes is not modelled.
- What happens to the process after an abort is not modelled. The model stops with `Aborted(error)` and the file left open, and the exit status is not modelled.
- `fs.open` and `appendFile` can reject, for example on a path that cannot be written, and a rejection ends the run. `OutputFile.Open` and `OutputFile.Append` never fail, so the model has no run that ends on a file error.
- `system.events.at` is a separate query, made after the block row has been written. If it fails, for example on a node that has pruned that block's state, the file ends with the block row and none of its vote rows. The model keeps the event log inside `Header`, so it has no such partial block.
- `process.exit` is modelled as the returned `Exit(code)`.
- JavaScript number precision for block numbers and for the counter is not modelled. Both are unbounded naturals.
