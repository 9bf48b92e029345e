# Blitz: deposits, reconciliation, rate limits, withdrawals, leases and addresses

Blitz is a deposit and withdrawal service for Bitcoin and Ethereum. Its logic runs over nodes that fail and
reorganise, a shared database, and leases. This project models that logic and proves what holds over every run of it:

- **Watchers** (`EthWatcher.dfy`, `EthReorg.dfy`, `EthStableChain.dfy`, `BtcWatcher.dfy`, `BtcReorg.dfy`). The Ethereum
  watcher keeps a height cursor and a hash cursor that move at different moments; a failed call in the middle of a scan
  leaves the hash cursor ahead, the next poll takes this for a reorganisation, and a later one scans the same blocks
  again. The Bitcoin watcher goes past a block it could not load.
- **Deposit pipeline** (`DepositPipeline.dfy`). Two bounded queues, two consumers with three attempts each, a table
  with a unique `tx_id`, dead letters.
- **Reconciler** (`Reconciler.dfy`, `ReconcilerLaws.dfy`), and the agreement of watcher, table and reconciler
  (`EndToEnd.dfy`, `EndToEndBtc.dfy`, `Orphans.dfy`), and what every user is credited with, in payments (`Credits.dfy`).
- **From blocks to payouts** (`Ledger.dfy`): watcher, pipeline, confirmation and withdrawals together.
- **Rate limiter** (`RateLimiter.dfy`): token buckets with lazy refill and background eviction.
- **Withdrawals with manual review** (`Withdrawals.dfy`, `WithdrawalAnswers.dfy`, `WithdrawalLaws.dfy`,
  `WithdrawalPending.dfy`, `WithdrawalPayouts.dfy`, `WithdrawalTightness.dfy`).
- **Leases** (`LeaseLock.dfy`): the withdraw lock and the leader key.
- **Confirmation** (`ConfirmChecker.dfy`) by checkers that may overlap.
- **Addresses** (`HdPath.dfy`, `Addresses.dfy`, `AddressRegistry.dfy`): the path parser, the index of a user, and the
  in-memory registry beside the `deposit_addresses` table.

`Basics.dfy` and `Deposits.dfy` hold the shared types. `dafny verify dfyconfig.toml` checks everything.

## How the model is built

What the source changes in place is a class here, with the source's fields, branches and loops. Each of its methods is
proved to take the state to the value of a step function on states; a `Run` function applies the step function to any
sequence of steps, and the theorems are about every such run. What a step function computes is stated once more in the
source's own words and numbers (heights, caps, depths, record fields), without the functions it is built from. Actors
that run at the same time (two watchers and two consumers, requests and reviews, etcd and its clients, several confirm
checkers) are steps of one state machine in any order.

- What a node, the database or etcd answers is a parameter of each step, `None` or `false` where the call fails, and is
  unrestricted unless a theorem says otherwise. A node may switch chains between any two calls.
- Amounts are naturals in units of 1e-8 coin, times are reals, heights are naturals.
- An Ethereum block stands for its own hash: a hash fixes the block, its number and its parent. `None` is the zero hash.
- `uint32` arithmetic is written out with its wrap (`% 2^32`).

## What does not hold

Where the code falls short of what its messages or documents say, the code is modelled as it is, the failure is shown
by a concrete run, and the exact condition is proved.

- After a reorganisation the watcher announces that it goes back to the previous height and scans again from there. It
  takes over the hash of the block it goes back to without scanning it. The chain it stands on is scanned without a hole
  exactly if no rollback went to a block of it that had not been scanned before (`ScannedExactly`). A payment in a skipped
  block, shown in no other, is in no record, then or later (`NeverRecorded`, `ReorgLosesADeposit`).
- A credited block can be orphaned. Every scanned block stays on the line of whatever the cursor holds at its height or
  above exactly if the cursor never holds another block at the height of a scanned one (`OrphanedExactly`). Otherwise the
  record and the row stay, and the row is confirmed by height alone (`OrphanStaysAndIsConfirmed`, and the run
  `ReorgOrphansADeposit`).
- The Bitcoin watcher never notices a reorganisation. A payment in a block at a height that the cursor has passed is
  recorded, then or later, exactly if that block is what the one attempt on the height had loaded
  (`BtcReorgs.RecordedExactly`, and the run `BtcReorgs.ReorgLosesADeposit`).
- Balance and daily limit are checked against completed withdrawals only. With k undecided requests of an account at a
  time, k times the deposit and k times the limit are reached (`BoundsAreReached`). Both promises hold for completed rows
  exactly if there is at most one undecided request and reviews of a row are serialised (`PromisesByOpenRequests`); for the
  money that leaves, exactly if status writes are served as well (`PromisesOnPayouts`). The number of pending rows alone is
  not enough: an approval between a balance check and the insert makes it k + 1 times (`PendingAlone`,
  `OneMoreThanPending`), so by pending rows the promises hold exactly if approvals also keep out of requests
  (`PromisesByPendingRows`), which take a lock that approvals do not.
- A withdrawal is broadcast at most once exactly if reviews of a row are serialised and no status write is lost;
  approvals take no lock, and the error of a status write is ignored (`BroadcastOnceExactly`).
- Users have distinct addresses exactly up to seven decimal digits; users 1012 and 14669600 share one, and it changes
  hands at a restart (`DistinctExactly`, `SharedAddressChangesHands`). From seven digits on an index can be a hardened
  child number (`UnhardenedExactly`).
- The path `m` is read as the root's child 0 (`RoundTrip`).

## Model

| member | source | states |
|---|---|---|
| `EthWatching.EthDepositWatcher.constructor` | internal/wallet/eth/watcher.go:38-45 | Both cursors start at the head, and nothing has been emitted. |
| `EthWatching.EthDepositWatcher.ScanNewBlocks` | internal/wallet/eth/watcher.go:61-81 | One poll takes the cursors, the history and the emitted records to what `Scan` says: nothing on a failed tip or an old one, a stop at the first block that is not ok, and the height cursor at the tip only after a full pass. |
| `EthWatching.EthDepositWatcher.ProcessBlock` | internal/wallet/eth/watcher.go:84-158 | One block: not ok and no change on a failed call; on a parent hash other than the hash cursor a rollback that moves both cursors to the refetched parent and emits nothing; otherwise the records of its payments to registered addresses, in order, and the hash cursor on the block. |
| `EthWatching.PollExactly` | internal/wallet/eth/watcher.go:61-112 | How far a poll gets: it accepts n blocks as long as each loads and names the hash cursor as parent, and ends at the tip with both cursors, or at the first block that does not: with the height cursor where it was if a call failed, or with both on the refetched parent after a mismatch. |
| `EthWatching.ScanKeeps` | internal/wallet/eth/watcher.go:61-158 | Each poll keeps: the hash cursor is not behind the height cursor, every height above the start up to the hash cursor was accepted, each accepted block is a child of the block the cursor held; and no height at or below the height cursor is scanned in it. |
| `EthWatching.RunKeeps` | internal/wallet/eth/watcher.go:61-158 | The same for every sequence of polls, with any failures and any reorganisations. |
| `EthWatching.NoGaps` | internal/wallet/eth/watcher.go:73-80 | In every run every height above the start up to the height cursor was accepted at least once. |
| `EthWatching.CursorNeverFalls` | internal/wallet/eth/watcher.go:105-106 | The height cursor never decreases over any further polls, rollbacks included. |
| `EthWatching.LinkedSegments` | internal/wallet/eth/watcher.go:92-112 | Between two realignments the accepted blocks are one line of descent: consecutive heights, each the parent of the next. |
| `EthWatching.RescanNeedsRealignment` | internal/wallet/eth/watcher.go:73-79 | A height is accepted a second time only after a realignment in between. |
| `EthWatching.TwoPollRecovery` | internal/wallet/eth/watcher.go:61-112 | From any state below the tip of a fixed chain, two polls without failures put both cursors on the tip; the first is enough if and only if the hash cursor is empty or agrees with the chain at the height cursor. |
| `EthReorgs.RunRecords` | internal/wallet/eth/watcher.go:115-157 | In every run the emitted records are exactly the deposits of the accepted blocks, in order, with the registry of the moment, and no record is taken back. |
| `Deposits.EthDepositsInOrder` | internal/wallet/eth/watcher.go:115-153 | The records of a block follow its transactions in order; a transaction gives one if and only if it has a recipient that is registered, with its hash, that address, the address's user, its value, the block's number and ETH. |
| `EthReorgs.RecordsInWords` | internal/wallet/eth/watcher.go:115-153 | A record is emitted in a run if and only if some accepted block holds a transaction to a registered recipient with exactly those fields. |
| `EthReorgs.NeverScannedLater` | internal/wallet/eth/watcher.go:68-73 | A block at or below the height cursor that was not scanned is never scanned in any continuation. |
| `EthReorgs.ScannedExactly` | internal/wallet/eth/watcher.go:92-110 | In every run the line of the cursor's block is scanned down to the start if and only if no rollback went to a block of that line, above the start, that had not been scanned before it. |
| `EthReorgs.RecordedExactly` | internal/wallet/eth/watcher.go:115-157 | In every run a payment to an address registered throughout, shown by the node in no other block, is in a record if and only if its block was scanned. |
| `EthReorgs.NeverRecorded` | internal/wallet/eth/watcher.go:99-110 | If a block at or below the height cursor was not scanned, a transaction that the node shows in no other block is in no record after any further polls. |
| `EthReorgs.ReorgLosesADeposit` | internal/wallet/eth/watcher.go:97-110 | A run of three polls without failures over a one-block reorganisation in which the replacing block is skipped; unless the node shows its deposit in another block, the deposit is in no record after any further polls. |
| `EthStableChain.CleanScanDistinct` | internal/wallet/eth/watcher.go:115-153 | On a chain with unique transaction hashes a clean scan of any range emits no tx_id twice. |
| `EthStableChain.ScanHeight` | internal/wallet/eth/watcher.go:73-79 | Up to repeats of a tx_id, scanning an old height again adds nothing and scanning the next height adds its deposits. |
| `EthStableChain.RunClean` | internal/wallet/eth/watcher.go:61-158 | The invariant of every run on a stable chain: the cursor is on the chain, and the emitted records without repeats are one clean scan up to the highest block ever accepted. |
| `EthStableChain.RecordsOfStableChain` | internal/wallet/eth/watcher.go:61-158 | On a stable chain, for any failures, false reorganisations and rescans, the emitted records without repeats are the clean scan of exactly the accepted heights, which have no hole and include the height cursor. |
| `BtcWatching.DepositWatcher.constructor` | internal/wallet/btc/watcher.go:38-44 | The cursor starts at the head, and nothing has been emitted. |
| `BtcWatching.DepositWatcher.ScanNewBlocks` | internal/wallet/btc/watcher.go:61-77 | One poll attempts every new height once, in order, and moves the cursor to the tip whatever the attempts came to. |
| `BtcWatching.DepositWatcher.ProcessBlock` | internal/wallet/btc/watcher.go:79-133 | One attempt: nothing if the hash or the block fails to load, otherwise the records of the block. |
| `BtcWatching.DepositWatcher.ScanBlock` | internal/wallet/btc/watcher.go:92-132 | The records of the block's transactions, in order. |
| `BtcWatching.DepositWatcher.ScanTx` | internal/wallet/btc/watcher.go:93-131 | One record for each output whose address is not empty, decodes and is registered, in order; `BtcDepositsInOrder` gives its fields. |
| `Deposits.BtcDepositsInOrder` | internal/wallet/btc/watcher.go:92-132 | The records of a block follow its transactions and outputs in order; an output gives one if and only if its address is not empty, decodes and is registered, with the transaction's id, that address, the address's user, the output's amount, the height and BTC. |
| `BtcWatching.AttemptExactly` | internal/wallet/btc/watcher.go:79-90 | One attempt leaves the height cursor alone and emits the records of the block the node shows at the height, or nothing if the hash or the block fails to load. |
| `BtcWatching.PollExactly` | internal/wallet/btc/watcher.go:61-77 | A poll above the cursor makes one attempt on each new height, the g-th new height in its place, with what the node shows there, and ends with the cursor at the tip; any other poll changes nothing. |
| `BtcWatching.EveryHeightOnce` | internal/wallet/btc/watcher.go:73-90 | In every run every height above the start up to the cursor was attempted exactly once, in order, and the emitted records are those of the attempts whose block was loaded: a failed attempt is never made good. |
| `BtcWatching.NeverLooksBack` | internal/wallet/btc/watcher.go:68-76 | In every continuation, with reorganisations or without, the attempts made stand and every further one is on a height above the cursor. |
| `BtcReorgs.RecordedExactly` | internal/wallet/btc/watcher.go:73-90 | Once the cursor is at or above a height, for good and whatever the node does later: a payment in a block at that height to an address that decodes and is registered throughout, shown in no other block, is in a record if and only if that block is what the one attempt on the height had loaded. |
| `BtcReorgs.RecordsInWords` | internal/wallet/btc/watcher.go:92-131 | A record is emitted in a run if and only if some attempt loaded a block with an output of a nonempty, decodable and registered address, and the record has that transaction id, address, user, amount and height, and BTC. |
| `BtcReorgs.ReorgLosesADeposit` | internal/wallet/btc/watcher.go:73-90 | A run of two polls without failures over a one-block reorganisation in which the replacing block is never scanned; unless the node shows its payment in another block, the payment is in no record after any further polls. |
| `DepositPipeline.Pipeline.constructor` | internal/wallet/eth/watcher.go:23-29 | Empty queues and tables. |
| `DepositPipeline.Pipeline.Send` | internal/wallet/eth/watcher.go:148-152 | A record joins its queue, or is dropped if 100 are queued. |
| `DepositPipeline.Pipeline.TryInsert` | internal/db/queries.sql:1-3 | An insert succeeds if and only if the database serves it and no row has the tx_id, and then adds exactly that row. |
| `DepositPipeline.Pipeline.Receive` | cmd/wallet-service/main.go:167-168 | The consumer takes the oldest queued record. |
| `DepositPipeline.Pipeline.Attempt` | cmd/wallet-service/main.go:186-196 | One attempt: the record becomes a row and leaves the hand, or its failures go up by one. |
| `DepositPipeline.Pipeline.DeadLetter` | cmd/wallet-service/main.go:198-208 | After three failures the record goes to the dead letters, or is lost if that insert fails as well. |
| `DepositPipeline.Pipeline.ConsumeOne` | cmd/wallet-service/main.go:167-209 | One round: at most three inserts up to the first success, and a dead letter if none succeeded. |
| `DepositPipeline.OfferExactly` | internal/wallet/eth/watcher.go:148-152 | An offered record joins the end of its queue if fewer than 100 are queued, and is dropped otherwise. |
| `DepositPipeline.ConsumeExactly` | cmd/wallet-service/main.go:167-209 | One round on the oldest queued record: it becomes a row if and only if its tx_id has none and one of the first three inserts is served; otherwise it becomes a dead letter, or is lost if that fails; nothing else changes. |
| `DepositPipeline.TriesExactly` | cmd/wallet-service/main.go:184-208 | A record in hand is tried again if and only if fewer than three inserts have failed, and given up if and only if three have. |
| `DepositPipeline.Conservation` | cmd/wallet-service/main.go:166-213 | After every interleaving of watchers and consumers the offered records are, as a multiset, exactly those queued, in hand, in deposits, dead-lettered, dropped and lost; no queue exceeds 100 and no record is tried more than three times. |
| `DepositPipeline.FailuresInHand` | cmd/wallet-service/main.go:186-196 | The failures of the record in hand are the failed inserts since it was taken. |
| `DepositPipeline.FateOfARecord` | cmd/wallet-service/main.go:184-208 | In every reachable state: a record is dropped only with 100 queued, dead-lettered or lost only after exactly three failed inserts, and lost only if the dead letter fails. |
| `DepositPipeline.FateInNumbers` | cmd/wallet-service/main.go:184-208 | In every run: a step drops a record if and only if it offers one to a queue of exactly 100, and gives one up if and only if exactly three inserts of it have failed. |
| `DepositPipeline.RowExactly` | cmd/wallet-service/main.go:186-196 | At every moment of every run: a transaction has a row if and only if an insert of one of its records was served. |
| `DepositPipeline.RowMissingExactly` | cmd/wallet-service/main.go:184-208 | At every moment of every run, whatever fails: a transaction has no row if and only if each record offered for it is queued, in hand, dropped, dead-lettered or lost. |
| `DepositPipeline.RowsStay` | internal/db/queries.sql:1-3 | The rows of a run are a prefix of the rows of every continuation. |
| `DepositPipeline.EverythingHasARow` | cmd/wallet-service/main.go:184-208 | When nothing of a chain is under way and whatever was dropped or given up has a row all the same, every record offered has its row, however many inserts failed on the way. |
| `DepositPipeline.LaneDelivers` | cmd/wallet-service/main.go:166-213 | For any failures on either chain: as long as nothing of a chain is dropped and its consumer gives up repeats only, the records offered are, in order, those done, in hand and queued, and the rows of the chain are the done ones without repeats of a tx_id. |
| `DepositPipeline.ExactlyOnce` | internal/db/schema.sql:10-21 | Under the same conditions, once the queue is drained, the rows of the chain are the records offered to it, in order, each tx_id once; inserts may fail and be repeated, and the other chain may do anything with transactions of its own. |
| `Reconciling.LoadRows` | internal/wallet/reconcile/reconciler.go:112-127 | The map from tx_id to row of the chain's rows in the height range. |
| `Reconciling.Check` | internal/wallet/reconcile/reconciler.go:172-198 | One output: missing without a row, otherwise seen, and mismatched if the amounts differ. |
| `Reconciling.CheckVout` | internal/wallet/reconcile/reconciler.go:156-199 | One Bitcoin output counts if its address is not empty, known, and decodes. |
| `Reconciling.CheckBtcTx` | internal/wallet/reconcile/reconciler.go:156-199 | The outputs of a transaction, in order. |
| `Reconciling.CheckBtcBlock` | internal/wallet/reconcile/reconciler.go:155-200 | The transactions of a block, in order. |
| `Reconciling.ReconcileBtc` | internal/wallet/reconcile/reconciler.go:88-217 | The Bitcoin pass computes `Reconcile` on the blocks that load: skipped without a tip or rows, cut off at the first cancelled height, otherwise finished with its missing, mismatched and phantom findings; `ReconcileByHeights` says in heights which these are. |
| `Reconciling.CheckEthTx` | internal/wallet/reconcile/reconciler.go:284-325 | One Ethereum transaction counts if it has a known recipient. |
| `Reconciling.CheckEthBlock` | internal/wallet/reconcile/reconciler.go:284-325 | The transactions of a block, in order. |
| `Reconciling.ReconcileEth` | internal/wallet/reconcile/reconciler.go:220-342 | The Ethereum pass computes `Reconcile`, and is also skipped when no stored address parses; `ReconcileByHeights` says in heights what it finds. |
| `ReconcilerLaws.BtcOutputsInOrder` | internal/wallet/reconcile/reconciler.go:155-199 | The outputs compared in a Bitcoin block follow its transactions and outputs in order; one counts if and only if its address is not empty, known and decodes, with the transaction's id, address, amount and height. |
| `ReconcilerLaws.EthOutputsInOrder` | internal/wallet/reconcile/reconciler.go:284-292 | The same for Ethereum transactions: one counts if and only if it has a known recipient. |
| `ReconcilerLaws.BtcSightingExactly` | internal/wallet/reconcile/reconciler.go:141-170 | A Bitcoin height is sighted if and only if hash and block load, and shows exactly the known, decodable, nonempty outputs of that block. |
| `ReconcilerLaws.EthSightingExactly` | internal/wallet/reconcile/reconciler.go:276-292 | An Ethereum height is sighted if and only if its block loads, and shows exactly its transactions to known recipients. |
| `ReconcilerLaws.ParsedExactly` | internal/wallet/reconcile/reconciler.go:227-235 | The known addresses of an Ethereum pass are exactly those that some stored address parses to. |
| `ReconcilerLaws.CompareExactly` | internal/wallet/reconcile/reconciler.go:172-198 | Every output is reported missing, or mismatched, as often as it occurs if it is so, and never otherwise. |
| `ReconcilerLaws.SeenExactly` | internal/wallet/reconcile/reconciler.go:185-185 | A tx_id is seen if and only if it has a row and some output names it. |
| `ReconcilerLaws.IndexExactly` | internal/wallet/reconcile/reconciler.go:112-127 | With unique tx_ids, the loaded map holds a row under its tx_id if and only if the row is in the table, of the chain and in the range. |
| `ReconcilerLaws.ReconcileExactly` | internal/wallet/reconcile/reconciler.go:106-216 | An uncancelled pass finishes; it reports exactly the in-window outputs without a row as missing and those with another amount as mismatched, with multiplicity, and exactly the in-range rows that no such output names as phantom. |
| `ReconcilerLaws.ReconcileByHeights` | internal/wallet/reconcile/reconciler.go:106-216 | The same in heights: an output is reported missing if and only if it is sighted at some h with h <= tip <= h + depth and no row of the chain with its tx_id has a height in that range, mismatched if and only if such a row has another amount; a tx_id is a phantom if and only if it has such a row and is sighted at no such height. |
| `ReconcilerLaws.CountsByHeights` | internal/wallet/reconcile/reconciler.go:172-198 | Each output is reported missing, or mismatched, as many times as its height shows it if h <= tip <= h + depth, and never otherwise. |
| `ReconcilerLaws.CleanExactly` | internal/wallet/reconcile/reconciler.go:106-216 | A finished pass has no findings if and only if every in-window output has its row with its amount and every in-range row has an output. |
| `ReconcilerLaws.CleanByHeights` | internal/wallet/reconcile/reconciler.go:106-216 | The same in heights: a pass finds nothing if and only if every output sighted at h with h <= tip <= h + depth has a row in that range with its amount, and every such row is sighted. |
| `ReconcilerLaws.FailuresOnlyHide` | internal/wallet/reconcile/reconciler.go:141-153 | When more blocks fail to load, missing and mismatched findings can only disappear and phantoms only appear; a row becomes a phantom if and only if it had outputs in the window and all of them lie in blocks that now fail. |
| `ReconcilerLaws.CancelledReportsAPrefix` | internal/wallet/reconcile/reconciler.go:135-139 | A pass is cancelled if and only if the context is done before some height; it then reports no phantoms, and its other findings are the first ones of the full pass. |
| `ReconcilerLaws.CancelledByHeights` | internal/wallet/reconcile/reconciler.go:134-139 | A pass is cancelled if and only if the context is done at some h with h <= tip <= h + depth. |
| `ReconcilerLaws.CancelledFindings` | internal/wallet/reconcile/reconciler.go:134-139 | A pass cancelled at a height reports exactly the findings on the outputs sighted below that height, by the same rules. |
| `EndToEnd.RowsUnique` | internal/db/schema.sql:12-12 | After every run the table holds each tx_id once. |
| `EndToEnd.EthCreditedExactly` | internal/wallet/eth/watcher.go:61-158 | On a stable chain, for any failures of node and database, any rescans and any interleaving: at every moment the Ethereum rows are, each once, the records of a clean scan of the accepted heights whose transaction had an insert served, and every user is credited with their sum. |
| `EndToEnd.EthCreditedExactlyOnce` | internal/wallet/eth/watcher.go:61-158 | Once nothing is under way and whatever was dropped or given up has a row all the same, the Ethereum rows are exactly the clean scan and every user's total is that of the scan. |
| `Credits.EthCreditInPayments` | internal/wallet/eth/watcher.go:115-153 | On a stable chain, at every moment: the Ethereum rows of a user sum to the values of the transactions, from the start to the highest block accepted, that pay an address of the user and had an insert served. |
| `EndToEnd.EthPassExactly` | internal/wallet/reconcile/reconciler.go:270-341 | If the watcher accepted every block of the window, a pass without failures, at any moment, reports as missing exactly the known outputs of transactions that had no insert served, with multiplicity, and no phantom. |
| `EndToEnd.EthPassIsClean` | internal/wallet/reconcile/reconciler.go:270-341 | If besides nothing is under way and whatever was dropped or given up has a row all the same, it reports nothing missing and no phantom. |
| `EndToEndBtc.RecordedUnlessFailed` | internal/wallet/btc/watcher.go:79-90 | An output of the window to a registered address has a row in the range if and only if the attempt on its block did not fail and its transaction has a row. |
| `EndToEndBtc.BtcPassExactly` | internal/wallet/reconcile/reconciler.go:134-216 | A pass without failures, at any moment, over heights the watcher has gone past reports as missing exactly the known outputs of the blocks whose scan had failed and of transactions that had no insert served, with multiplicity, and no phantom. |
| `EndToEndBtc.BtcPassReportsFailedScans` | internal/wallet/reconcile/reconciler.go:134-216 | Once nothing is under way and whatever was dropped or given up has a row all the same, it reports as missing exactly the known outputs of the blocks whose scan had failed. |
| `EndToEndBtc.BtcPassNoMismatch` | internal/wallet/reconcile/reconciler.go:170-197 | When a transaction pays registered addresses at most once, a pass without failures, at any moment and whatever failed before, reports no mismatch. |
| `Credits.BtcCreditInPayments` | internal/wallet/btc/watcher.go:92-131 | With at most one payment per transaction, at every moment: the Bitcoin rows of a user sum to the amounts of the outputs, in the blocks loaded, that pay an address of the user and whose transaction had an insert served. |
| `Orphans.OrphanedExactly` | internal/wallet/eth/watcher.go:92-112 | In every run each scanned block stays on the line of every block the cursor holds at its height or above if and only if the cursor never holds another block at the height of a scanned one. |
| `Orphans.OrphanStaysAndIsConfirmed` | internal/wallet/core/confirm.go:151-156 | In every run a deposit of an orphaned block lies on no line with the block that took its place; its record and its row stay in every continuation, and in any table with the row a check confirms it if and only if the update is served and the height read is 12 above. |
| `Orphans.ReorgOrphansADeposit` | internal/wallet/eth/watcher.go:92-112 | A run of two polls without failures after which a credited deposit is orphaned, for any new line. |
| `Ledgers.PayoutsCoveredByChain` | internal/api/wallet.go:244-318 | For any failures, rescans and interleavings of watcher, pipeline, confirm checks and requests, with serialised reviews and served status writes: what is paid out to a user with at most k undecided requests at a time is at most k times the confirmed rows of the user, each seen deep enough, and at most k times what the clean scan holds for the user. |
| `Ledgers.DepositedIsConfirmed` | internal/db/queries.sql:30-33 | A balance is the sum of the confirmations made, and nothing else. |
| `RateLimiting.RateLimiter.constructor` | internal/api/ratelimit.go:21-26 | No buckets, and the configured rate and burst. |
| `RateLimiting.RateLimiter.Allow` | internal/api/ratelimit.go:37-60 | The answer and the buckets after one call: a full bucket for a new client, refill up to the burst, and one token spent if there is one. |
| `RateLimiting.RateLimiter.Cleanup` | internal/api/ratelimit.go:62-71 | Exactly the buckets idle for more than 300 seconds are gone, whatever the order of the pass. |
| `RateLimiting.SweepExactly` | internal/api/ratelimit.go:62-71 | After a sweep a bucket is there, unchanged, if and only if it was there and last used at most 300 seconds ago. |
| `RateLimiting.LawWithoutEviction` | internal/api/ratelimit.go:48-59 | Without eviction, for any call times: a call is let through if and only if for each call of the client up to and including it, the calls let through since then plus one are at most the burst plus the refill over that time. |
| `RateLimiting.ExactLaw` | internal/api/ratelimit.go:37-71 | The same for the limiter with sweeps at any moments, when 300 seconds refill a bucket and times do not decrease. |
| `RateLimiting.ExactLawInNumbers` | internal/api/ratelimit.go:37-71 | The exact law for any rate and burst with 300 * rate >= burst, in those numbers alone. |
| `RateLimiting.WindowBound` | internal/api/ratelimit.go:37-71 | No stretch of events lets a client through more often than burst plus rate times its duration. |
| `RateLimiting.EvictionSimulation` | internal/api/ratelimit.go:62-71 | Under the same condition the evicting limiter gives every answer that one without eviction gives. |
| `RateLimiting.Isolation` | internal/api/ratelimit.go:41-46 | The answers to a client are those it would get alone, with no other clients and no sweeps. |
| `RateLimiting.EvictionInvisibleExactly` | internal/api/ratelimit.go:62-71 | Eviction changes no answer of any run if and only if 300 seconds refill a bucket, or the burst is below one token. |
| `RateLimiting.EvictionInNumbers` | internal/api/ratelimit.go:62-71 | The same in numbers: if and only if 300 * rate >= burst or burst < 1. |
| `RateLimiting.ConfiguredLimiters` | internal/api/handler.go:34-35 | Both configured limiters are immune to eviction and obey the window bound with their own numbers. |
| `RateLimiting.ConfiguredExactly` | internal/api/handler.go:34-35 | The exact law of both configured limiters: the general one lets a call through if and only if a budget of 100 plus 2 a second allows it, the login one with 5 plus 0.1 a second, neither more nor less. |
| `Withdrawing.WithdrawalDesk.constructor` | internal/db/schema.sql:23-34 | Nothing is deposited, requested or under review. |
| `Withdrawing.WithdrawalDesk.Total` | internal/db/queries.sql:74-77 | The sum of the amounts of the selected rows. |
| `Withdrawing.WithdrawalDesk.Withdraw` | internal/api/wallet.go:179-364 | The handler's answer and the state it leaves when nothing interleaves: the error cases in the source's order, failed lock, reads and insert included, each without effect, and a pending row on success; `AnswersExactly` gives each answer its condition. |
| `WithdrawalAnswers.AnswersExactly` | internal/api/wallet.go:179-318 | Each answer of the handler has its own condition, in amounts, caps, sums of completed rows and the calls served: bad request, over the single limit, locked, insufficient, over the daily limit, internal error, submitted; exactly one of them holds, and all but the last leave the state alone. |
| `WithdrawalAnswers.ServedExactly` | internal/api/wallet.go:197-306 | When every call is served and no request of the account is under way, a withdrawal is submitted if and only if it is positive, at most 1 BTC or 10 ETH, completed rows plus it are within the deposits, and rows completed of the last 24 hours plus it are within the daily limit of its chain. |
| `WithdrawalAnswers.SubmittedExactly` | internal/api/wallet.go:244-318 | A submitted withdrawal adds exactly one pending row with its account, amount and time, and is the legal run of the balance check, the limit check and the insert. |
| `Withdrawing.WithdrawalDesk.ListPending` | internal/db/queries.sql:53-54 | Exactly the pending rows, each once, the oldest first. |
| `Withdrawing.WithdrawalDesk.FindPending` | internal/api/wallet.go:519-538 | The search of that listing finds the row of the id if the row is pending, and otherwise nothing. |
| `Withdrawing.WithdrawalDesk.ApproveWithdrawal` | internal/api/wallet.go:506-559 | The answer in every case, and: only a pending row is settled, completed after a broadcast, failed if it fails, untouched for an unsupported chain or when the status write is not served. |
| `Withdrawing.WithdrawalDesk.RejectWithdrawal` | internal/api/wallet.go:591-632 | The answer in every case, and: only a pending row is rejected, and it stays pending when the status write is not served. |
| `WithdrawalAnswers.LoadExactly` | internal/api/wallet.go:519-538 | A review takes up a row if and only if it is there and pending. |
| `WithdrawalAnswers.ApprovalExactly` | internal/api/wallet.go:418-559 | An approval broadcasts the row if its chain is supported and the node takes it; the row becomes completed after a broadcast and failed without one, and stays as it is for another chain or a lost write; no other row changes. |
| `WithdrawalAnswers.RejectionExactly` | internal/api/wallet.go:607-632 | A rejection makes the one row rejected if the write is served, and changes nothing else. |
| `WithdrawalLaws.SumUpdate` | internal/db/queries.sql:61-64 | A change of one row changes each sum and count by that row's share. |
| `WithdrawalLaws.SettleRow` | internal/db/queries.sql:56-59 | Settling a pending row raises neither completed plus pending nor the number of pending rows. |
| `WithdrawalLaws.ReviewEffect` | internal/api/wallet.go:544-559 | A review leaves deposits and requests alone and settles at most one row, which was pending. |
| `WithdrawalLaws.StepKeepsSolvent` | internal/api/wallet.go:244-318 | Each step of a request, a review or a confirmation keeps the solvency invariant while at most k requests are undecided. |
| `WithdrawalLaws.SolvencyByOpenRequests` | internal/api/wallet.go:244-318 | For every interleaving in which the account has at most k undecided requests at a time: completed plus pending plus under way is at most k times the confirmed deposits. |
| `WithdrawalAnswers.SolvencyInRows` | internal/api/wallet.go:244-318 | The same in amounts of rows: those completed and those pending of the account sum to at most k times its deposits. |
| `WithdrawalLaws.RollingLimit` | internal/api/wallet.go:270-318 | While at most k requests are undecided and the limits checked against are at most m, completed and pending withdrawals created in any 24 hours sum to at most k times m. |
| `WithdrawalAnswers.RollingLimitInRows` | internal/api/wallet.go:270-318 | The same in amounts of rows, with the limit of each chain by its name. |
| `WithdrawalLaws.CompletedInADay` | internal/db/queries.sql:122-128 | The same for completed withdrawals over any 24 hours, not only those ending at a check. |
| `WithdrawalPending.PendingAlone` | internal/api/wallet.go:244-318 | With at most k pending rows at a time, whatever else interleaves, withdrawals stay within k + 1 times the deposits and the daily limit. |
| `WithdrawalPending.BoundsByPendingRows` | internal/api/wallet.go:244-318 | If no approval of the account falls between a balance check and its insert, at most k pending rows at a time keep completed plus pending within k times the deposits and any 24 hours within k times the limit. |
| `WithdrawalPending.NeverPendingNoRows` | internal/api/wallet.go:308-318 | An account that never has a pending row has no row at all, however reviews race. |
| `WithdrawalPayouts.BroadcastOnce` | internal/api/wallet.go:519-559 | With serialised reviews and status writes served, a row is broadcast once if it is completed and never otherwise. |
| `WithdrawalPayouts.PayoutsBounded` | internal/api/wallet.go:418-451 | Under the same conditions what was broadcast for an account with at most k undecided requests at a time is at most k times its deposits, and at most k times the limit for the rows created in any 24 hours. |
| `WithdrawalTightness.BoundsAreReached` | internal/api/wallet.go:263-305 | For every k and every deposit up to the single limit a run that meets every condition and has at most k undecided requests completes k times the deposit and k times the daily limit within a day. |
| `WithdrawalTightness.OneMoreThanPending` | internal/api/wallet.go:263-318 | For every k above 0 a run with serialised reviews and never more than k pending rows completes k + 1 times the deposit and the limit, by an approval between check and insert. |
| `WithdrawalTightness.RacingReviewsOverdraw` | internal/api/wallet.go:519-559 | A run with never more than one undecided request and every write served that completes twice the deposit, by the approval of a request another administrator has rejected. |
| `WithdrawalTightness.PromisesByOpenRequests` | internal/api/wallet.go:263-305 | In all runs with at most k undecided requests that meet chosen conditions (serialised reviews, served writes, approvals out of requests) completed withdrawals are covered by deposits if and only if k is 0, or k is 1 and reviews are serialised; and so for the daily limit. |
| `WithdrawalTightness.PromisesByPendingRows` | internal/api/wallet.go:263-318 | The same by pending rows: if and only if k is 0, or k is 1, reviews are serialised and approvals keep out of requests. |
| `WithdrawalTightness.PromisesOnPayouts` | internal/api/wallet.go:519-559 | The same for the money broadcast: if and only if k is 0, or k is 1, reviews are serialised and status writes are served. |
| `WithdrawalTightness.LostWriteSendsTwice` | internal/api/wallet.go:554-559 | A run with serialised reviews in which the one row is broadcast twice because a status write is lost. |
| `WithdrawalTightness.RacingReviewsSendTwice` | internal/api/wallet.go:519-544 | A run with every write served in which two administrators load a row before either settles it, and it is broadcast twice. |
| `WithdrawalTightness.BroadcastOnceExactly` | internal/api/wallet.go:519-559 | No row is ever broadcast twice if and only if reviews are serialised and status writes are served. |
| `LeaseLocking.Coordinator.constructor` | internal/lock/lock.go:16-18 | No leases, keys or sessions. |
| `LeaseLocking.Coordinator.GrantLease` | internal/lock/lock.go:28-32 | A fresh lease whose deadline is a full TTL away. |
| `LeaseLocking.Coordinator.CreateIfAbsent` | internal/lock/lock.go:36-41 | The transaction succeeds if and only if the key is absent and the lease lives, and then the key belongs to the lease. |
| `LeaseLocking.Coordinator.RevokeLease` | internal/lock/lock.go:58-62 | A served revoke drops the lease and exactly its keys; `ReleaseFreesTheKey` says what that does to a held lock. |
| `LeaseLocking.Coordinator.Acquire` | internal/lock/lock.go:27-55 | Acquire takes the state through its grant, transaction and revoke, and returns the lease exactly if all were answered and the key was free. |
| `LeaseLocking.Coordinator.Release` | internal/lock/lock.go:58-62 | A release is one revoke, which frees the holder's lease and key if it is served (`ReleaseFreesTheKey`); no other lease and no key of another lease is touched. |
| `LeaseLocking.AcquireTakesFreeKey` | internal/lock/lock.go:27-55 | On success a free key is held under the fresh lease and nothing else changed; on failure every key keeps its owner, unless reply and revoke are both lost, and once the revoke is served no lease is left. |
| `LeaseLocking.RunKeepsInv` | internal/lock/lock.go:27-62 | In every interleaving of grants, transactions, keep-alives, revokes, expiries and lost messages: keys belong to live leases of their sessions, a live holder owns its key, and of two holders of a key the earlier has lost its lease. |
| `LeaseLocking.OverlapOnlyAfterTtl` | internal/lock/lock.go:27-62 | Two sessions hold a key at once only if the one that entered first has no lease any more and a full TTL has passed since its last renewal. |
| `LeaseLocking.LiveHolderOwns` | internal/wallet/core/confirm.go:60-97 | A holder's lease is alive if and only if it owns the key. |
| `LeaseLocking.LocksCountFromGrant` | internal/lock/lock.go:27-55 | Without keep-alives, as for the lock, the TTL counts from the grant. |
| `LeaseLocking.LateReleaseTouchesNothing` | internal/lock/lock.go:58-62 | A release after the lease is gone changes no lease and no key. |
| `LeaseLocking.EveryKeyComesFree` | internal/lock/lock.go:28-28 | However a key came to be owned, waiting for its deadline lets its lease expire and frees it. |
| `LeaseLocking.ReleaseFreesTheKey` | internal/lock/lock.go:58-62 | In every run: a served release by a holder whose lease lives removes that lease and frees its key, leaves every other lease and key as it was, and the next served acquire of the key holds it under a fresh lease. |
| `LeaseLocking.KeepAliveExactly` | internal/wallet/core/confirm.go:87-113 | In every run a keep-alive is a live holder's, and sets the deadline of its own lease a full TTL from now and nothing else. |
| `LeaseLocking.ExpiryExactly` | internal/lock/lock.go:28-28 | A lease can expire if and only if it is there and its deadline has come; it takes exactly its keys with it. |
| `Confirming.ConfirmChecker.ListUnconfirmed` | internal/db/queries.sql:8-11 | Exactly the unconfirmed rows, as they are, each once, by height. |
| `Confirming.ConfirmChecker.Check` | internal/wallet/core/confirm.go:116-163 | A check run alone confirms exactly the rows that are unconfirmed, at least 6 (Bitcoin) or 12 (Ethereum) below the height read, 0 for a failed read, and whose update is served; `CheckExactly` gives both rules in numbers. |
| `Confirming.CheckExactly` | internal/wallet/core/confirm.go:126-156 | For every row: an unconfirmed Bitcoin row becomes confirmed if and only if its update is served and the Bitcoin height read, 0 for a failed read, is at least its height plus 6, an Ethereum row by the Ethereum height and 12; a confirmed row stays so, and chain and height never change. |
| `Confirming.UpdateAllExactly` | internal/wallet/core/confirm.go:136-162 | The row-by-row loop over the listing comes to the same as confirming all ripe rows at once. |
| `Confirming.OverlappingChecksAreSequential` | internal/wallet/core/confirm.go:116-163 | Any number of overlapping check runs, with deposits arriving in between, leave the table of the runs done one after the other. |
| `Confirming.ConfirmedOnlyIfDeep` | internal/wallet/core/confirm.go:151-156 | In every run a row is confirmed only if it was inserted so or some check read a height of its own chain at least 6 (Bitcoin) or 12 (Ethereum) above it. |
| `Confirming.ConfirmationIsFinal` | internal/db/queries.sql:69-72 | No step removes a row, changes its chain or height, or takes a confirmation back. |
| `HdPaths.ParsePath` | internal/wallet/core/hd.go:63-86 | The byte loop computes the child numbers of a path, with uint32 wrap, hardened bit and separators, ignoring other bytes. |
| `HdPaths.DerivePath` | internal/wallet/core/hd.go:50-61 | Derivation along the parsed child numbers, refused if any child is refused. |
| `HdPaths.BytesExactly` | internal/wallet/core/hd.go:63-86 | What one more byte of a path does: a digit multiplies by 10 and adds modulo 2^32, an apostrophe adds 2^31 to a number below it, a slash ends the number, any other byte is ignored. |
| `HdPaths.PathsExactly` | internal/wallet/core/hd.go:63-86 | A path is its numbers with the one begun at the end; a leading m/ is cut, and nothing is read from an empty path. |
| `HdPaths.DerivedExactly` | internal/wallet/core/hd.go:50-61 | Derivation starts at the master key and takes one child more for one number more, and a refused child refuses all that follows. |
| `HdPaths.RoundTrip` | internal/wallet/core/hd.go:63-86 | Printing a list of child numbers as m/... and parsing it gives the list back, over all of uint32 and for hardened ones, if and only if the list is not empty; m is read as child 0. |
| `HdPaths.DistinctPathsDistinctKeys` | internal/wallet/core/hd.go:50-61 | Along a collision-free derivation, different lists of child numbers give different keys. |
| `Addresses.UserIndex` | internal/wallet/eth/eth.go:46-50 | The loop that wraps at every step computes the unbounded base-31 fold modulo 2^32. |
| `Addresses.IndexExactly` | internal/wallet/eth/eth.go:46-50 | The index of the empty id is 0, and one more character multiplies by 31 and adds its code, modulo 2^32. |
| `Addresses.FoldInjective` | internal/wallet/eth/eth.go:46-50 | The unbounded fold tells decimal ids of any lengths apart. |
| `Addresses.DistinctExactly` | internal/wallet/eth/eth.go:46-50 | Ids of up to n decimal digits have distinct uint32 indices if and only if n is at most 7. |
| `Addresses.UnhardenedExactly` | internal/wallet/eth/eth.go:46-52 | Their indices are all below 2^31 if and only if n is at most 6. |
| `Addresses.Collision` | internal/wallet/btc/btc.go:28-32 | Users 1012 and 14669600 have the same index. |
| `Addresses.DepositPathParses` | internal/wallet/eth/eth.go:52-55 | The printed deposit path of a user is parsed as 44', the coin type hardened, 0', 0, and the user's index. |
| `Addresses.DepositPathsInNumbers` | internal/wallet/eth/eth.go:46-55 | The path of a Bitcoin user is m/44'/0'/0'/0/index and of an Ethereum user m/44'/60'/0'/0/index, and both are parsed as those numbers, the first three hardened. |
| `Addresses.SharedAddressExactly` | internal/wallet/btc/btc.go:28-51 | With injective derivation two users get the same address if and only if chain and index are the same. |
| `Addresses.WalletIsInjective` | internal/wallet/core/hd.go:50-61 | With collision-free derivation and address encoding, different chains or child numbers have different addresses. |
| `AddressRegistering.AddressRegistry.constructor` | internal/wallet/types/types.go:11-15 | An empty registry. |
| `AddressRegistering.AddressRegistry.Register` | internal/wallet/types/types.go:17-21 | The address maps to the user, replacing any other, and nothing else changes. |
| `AddressRegistering.AddressRegistry.Lookup` | internal/wallet/types/types.go:23-28 | The user of the address, if there is one. |
| `AddressRegistering.WalletService.constructor` | cmd/wallet-service/main.go:100-100 | Empty registry and table. |
| `AddressRegistering.WalletService.GenerateDepositAddress` | internal/wallet/eth/eth.go:45-86 | The address is the one derived along the parsed path; the registry files it under the last user who asked, the table under the first whose insert was served. |
| `AddressRegistering.GenerateExactly` | internal/wallet/eth/eth.go:45-79 | A request derives along the path written out with coin type 0 or 60; the address given is registered for the user, and enters the table if the insert is served and it is new there; a failed derivation changes nothing. |
| `AddressRegistering.WalletService.Recover` | cmd/wallet-service/main.go:99-109 | After a restart the registry is the table, or empty if the table could not be loaded. |
| `AddressRegistering.RestartExactly` | cmd/wallet-service/main.go:99-109 | A restart leaves the table alone and makes the registry equal to it, or empty if the load fails. |
| `AddressRegistering.TableRows` | internal/db/queries.sql:13-16 | With inserts served the table holds exactly the addresses given, each under somebody who asked for it. |
| `AddressRegistering.AgreeExactly` | cmd/wallet-service/main.go:99-109 | With inserts and loads served, over any requests and restarts: registry and table agree throughout if and only if no address was given to two users. |
| `AddressRegistering.AgreeUpToSevenDigits` | cmd/wallet-service/main.go:99-109 | They agree throughout when all ids are decimal with at most seven digits. |
| `AddressRegistering.AgreeOnDerivedAddresses` | internal/wallet/eth/eth.go:45-79 | The same for the wallet derived from a master key, when derivation and address encoding are collision-free. |
| `AddressRegistering.SharedAddressChangesHands` | internal/wallet/types/types.go:17-21 | With users 1012 and 14669600 the address belongs to the one before a restart and to the other after it. |

## Left out

- The `WITHDRAWAL_AUTO_APPROVE` branch (internal/api/wallet.go:324-349): only manual review is modelled.
- float64 arithmetic and `%.8f` formatting: amounts are exact multiples of 1e-8, tokens and times are reals. An amount is compared as a number where the reconciler compares two formatted strings.
- EndToEnd.EthPassExactly: says nothing about mismatched amounts, because the watcher and the reconciler format an Ethereum amount through different float types.
- EndToEnd.EthCreditedExactly: takes a chain that does not reorganise and one registry throughout, and a tx_id that belongs to one chain; what a reorganisation loses is in EthReorgs.ScannedExactly and EthReorgs.NeverRecorded.
- EndToEndBtc.BtcPassNoMismatch: two outputs of one transaction to known addresses share one row, the second record goes to the dead letters, and the amount of the one row is then reported for the other; that case is in ReconcilerLaws.ReconcileExactly only.
- DepositPipeline.ExactlyOnce: an insert that reports an error has not been committed; a commit whose acknowledgement is lost is not modelled.
- EthWatching.Run, BtcWatching.Run: a poll sees one registry; the source looks each address up while new ones may be registered, so an address registered in the middle of a poll counts from the next one on.
- DepositPipeline: the records that a watcher emits are offered in order; that the watcher fills the queue while a consumer empties it is in the interleaving of the pipeline's steps, not in the watcher's class, which keeps its emissions as a sequence.
- Restarts of the watchers, which begin again after the current head: one process lifetime is modelled.
- Wrap-around of uint64 and int64 heights.
- EthWatching.EthDepositWatcher.ProcessBlock: addresses are canonical strings, so the second registry lookup, of the same canonical string, is one with the first.
- Reconciling: loading the addresses and splitting them by chain (internal/wallet/reconcile/reconciler.go:56-82), log lines and metrics; findings are sequences and sets instead of counters.
- RateLimiting.RateLimiter.Allow: buckets are held by value in the map and each call is atomic, as the mutex makes it; the clock is a parameter.
- Withdrawing.WithdrawalDesk.Withdraw: decoding of the request and the check that the caller is logged in; the lock is the state "a request of the account is under way", which stands for etcd's lock while the handler runs within the TTL.
- WithdrawalLaws.SolvencyByOpenRequests: assumes serialised reviews of a row, which the source does not enforce; WithdrawalTightness.PromisesByOpenRequests says what holds without.
- Broadcasting, fees, and the transaction ids written with a status.
- Etcd and Postgres inside: their operations are atomic steps; a transaction that takes effect after its client has given up on it, and clock differences, are not modelled.
- LeaseLocking: the leader's campaign loop (internal/wallet/core/confirm.go:60-114) is the same grant, transaction and revoke, with keep-alive steps; its tickers are not modelled.
- Confirming: the level upgrade started after a confirmation only writes a log line.
- Addresses.WalletIsInjective: one derivation step and the address encoding are arbitrary functions, collision-free where a theorem says so; bip32, secp256k1 and bech32 are not part of this model.
- The other handlers, login, roles, audit, email, metrics, configuration reload, sweeper, key rotation, seed storage and the frontend: plumbing, or easy next to the above.
