# Verified model of the UTXO ledger

The repository keeps a ledger of unspent transaction outputs (UTXOs), decides
which transactions may change it, and carries the feature extensions that
decide who may spend an output. This project models that core in Dafny and
proves the properties that hold across its functions and over whole runs.

| file | what it models |
|---|---|
| `bytes.dfy`, `sorting.dfy`, `folds.dfy` | byte comparison, XOR of identifiers, sorted-and-unique scans, the insertion sort, folds that do not depend on an order |
| `utxo.dfy`, `utxo_state.dfy` | the store: cache with negative entries, table, one ordered index list per address, XOR checksum; a class whose calls are tied to a transition relation, and runs of that relation |
| `utxo_fetching.dfy` | the cursor-paginated reader and the balance |
| `flow_checker.dfy`, `transferables.dfy` | per-asset flow with 64-bit overflow, canonical orders, `VerifyTx` |
| `ledger.dfy` | consuming and producing, conservation of value over runs |
| `fx_common.dfy`, `secp256k1fx.dfy`, `keychain.dfy` | threshold signatures by key recovery, the wallet that must meet the verifier |
| `verify_cache.dfy`, `pq_fx.dfy`, `pubkey_fx.dfy`, `pq_keychain.dfy` | the remembered signature checks of ML-DSA, SLH-DSA, Ed25519 and Schnorr, the ML-DSA wallet |
| `bls_bitmap.dfy` | the signer bitmap of BLS attestations |
| `wire.dfy`, `credential_wire.dfy` | self-delimiting envelopes, signed transactions, packed owners, fixed-stride signature runs |

## How to read the model

* The store is a class. Each method states its effect as a step `Next` of a
  transition relation on its fields; the invariants are lemmas about one step,
  and `HistoryRefinesPlainMap` lifts them to every history of calls and
  evictions. The cache may lose any entries after any insertion.
* Integer widths are explicit: `uint64` sums that overflow are errors,
  `uint32(len(x))` is `ToUint32(|x|)`, a remainder modulo 2^32, and no theorem
  assumes the lengths away unless its statement says so.
* Hashing, signatures, address derivation and parsers of foreign formats are
  parameters: function-valued fields of a `Crypto`, `Wallet`, `Signer`, `Parse`
  or `OwnerCodec` value. What a theorem needs of them (signing then verifying
  succeeds, no hash collision among the strings that a history hashed) is in its
  `requires` or in front of its implication. Injectivity of a hash on all
  inputs is never assumed: it would be contradictory.
* The verdicts and effects are specified through small functions and predicates.
  For each main operation a lemma or a contract says the same in plain terms, in
  the fields of its arguments alone (`PutInPlainTerms`, `DeleteInPlainTerms`,
  `OwnedInPlainTerms`, `AcceptedIff`, `OutputsStored` and `SourcesGone` in
  `Produce`, `Consume` and `Apply`, `AuthorizedInPlainTerms`, `MatchInPlainTerms`,
  `ChecksInPlainTerms`, `AllInPlainTerms`).
* Clocks and the order in which a Go map or set is walked are parameters or
  arbitrary choices.

## Where a promise fails

Each of these is proved with the exact condition under which the promise holds.

* `PutUTXO` with an identifier that is already stored toggles the checksum the
  wrong way and may leave stale index entries (`PutKeepsChecksumIff`,
  `PutKeepsIndexIff`).
* The zero identifier is both "no start" and a possible list entry. A listing is
  the documented page exactly when the zero identifier is not among it behind the
  first entry (`ListingIsPageIff`); a cursor resumes a listing exactly unless the
  zero identifier follows it (`ResumesIff`); paging from the empty cursor, and
  `GetAllUTXOs`, miss nothing exactly when no requested list holds it
  (`PaginationIsCompleteIff`, `ReadAllPages`, `GetAllUTXOs`).
* The documentation of the reader promises identifiers "greater than" the start;
  the code reads those that come after it in the list's own order, from the head
  if the start is not listed, and the model follows the code. For every listed
  start the promise is kept exactly when the list is in byte order
  (`ListedStartsIff`); on a list in byte order it is kept for a start exactly when
  the start is listed or lies below the whole list (`DocumentedOrderIff`).
  `SmallerIDListed` and `SmallerIDFromUnlisted` give pages with a smaller identifier.
* The documentation promises the address and identifier of the last UTXO fetched;
  the code returns those searched last. A full page keeps the promise
  (`GetPaginatedUTXOs`); a short one exactly when the last address had something
  left to read and nothing new was searched after the last identifier searched was
  first met (`ShortCursorIff`).
* Inputs are compared within one list only. A transaction conserves an asset
  exactly when its inputs also pay for what they claim twice (`ConservesIff`), and
  the flow check counts what is really removed exactly when repeated sources are
  worthless (`ConsumptionIsExactIff`). `SharedInputMintsValue` gives an accepted
  transaction that does not conserve, for any stored output of value whose double
  fits in 64 bits; no other output can be named twice (`AcceptedPairFits`). With one
  input list the check itself suffices (`SingleListSpendsOnce`).
* `popcountBitmap` counts in a `uint32`. The gate is characterised for every
  bitmap (`Gate`), and it detects out-of-range bits on all bitmaps of a length
  exactly below a limit of 2^32 bits plus the committee size (`GateExactIff`, with
  `WrapHidesOutOfRange` and `WrapRefusesCover` for all lengths from there on).
* `CredentialAt` does not parse what it skips (`AtSucceedsIff`), so it can succeed
  where `AllCredentials` fails (`AtCanSucceedAlone`); they succeed together exactly
  when every index parses (`AllIffEach`). Credential and owner counts are stored
  as `uint32` (the `...RoundTripIff` lemmas).
* The cache key of ML-DSA and SLH-DSA leaves out the level. A remembered result
  answers a check truly in every state that satisfies the cache invariant exactly
  when the public key does not have another level's length (`AlwaysAnsweredIff`, with
  `OtherLengthShows`). The three entry points check this; a direct call of
  `VerifyCredentials` does not, and `DirectCallsShowTheCache` makes, for every such
  key, two calls of which the second is accepted for the first one's result.
* The ML-DSA keychain is able to match an output with threshold zero, which the
  verifier then refuses for its empty credential (`PQKeychain.WalletMeetsVerifierIff`).

## Model

| member | source | states |
|---|---|---|
| UtxoState.UtxoState.constructor | utxo_state.go:89-103 | opening a database starts with an empty cache and the checksum of its stored identifiers |
| UtxoState.UtxoState.InitChecksum | utxo_state.go:273-289 | walking the table in any order gives the XOR of the set of stored identifiers, or nothing when untracked |
| UtxoState.UtxoState.GetUTXO | utxo_state.go:146-172 | changes the cache alone; answers as the plain table does, whatever the cache lost |
| UtxoState.UtxoState.PutUTXO | utxo_state.go:174-203 | is the put step: table, checksum, cache and exactly the named index lists; refused without wire bytes |
| UtxoState.UtxoState.DeleteUTXO | utxo_state.go:205-234 | is the delete step: an absent identifier changes only the cache, a present one leaves table, checksum and its lists |
| UtxoState.PutInPlainTerms | utxo_state.go:174-203 | a put stores the UTXO under the identifier of its transaction and index, toggles the checksum, and enters the identifier in the lists of all its output's addresses and no others |
| UtxoState.DeleteInPlainTerms | utxo_state.go:205-234 | a delete removes a stored UTXO, toggles the checksum, and takes the identifier from the lists of all its output's addresses and no others; of an absent one it changes neither table, lists nor checksum |
| UtxoState.IndexInPlainTerms | utxo_state.go:190-202 | an exact index lists an identifier under an address exactly when it is stored and its output names the address |
| UtxoState.InsertedUndone | utxo_state.go:195-201 | entering a new identifier keeps the order of the others |
| UtxoState.WithoutJoins | utxo_state.go:226-232 | taking an identifier out keeps the order of the others |
| UtxoState.UtxoState.UTXOIDs | utxo_state.go:236-255 | returns what the listing loop collects from the start, and changes nothing |
| UtxoState.UtxoState.IndexAll | utxo_state.go:195-201 | the identifier enters each named list once, also when an address is named twice; no other list changes |
| UtxoState.UtxoState.UnindexAll | utxo_state.go:226-232 | the identifier leaves each named list; no other list changes |
| UtxoState.ListingIsShown | utxo_state.go:236-255 | for every list, start and limit, a listing is the first part of what comes after the start, where the zero identifier is passed over unless it comes first |
| UtxoState.ListingIsPageIff | utxo_state.go:42-46 | the listing is the documented page, at most limit entries after the start, exactly when the zero identifier is not among them behind the first |
| UtxoState.PageFromHead | utxo_state.go:236-255 | without the zero identifier, a page from an unlisted start is the first limit entries of the list |
| UtxoState.PageBehind | utxo_state.go:236-255 | without the zero identifier, a page from a listed start is the first limit entries behind it |
| UtxoState.ResumesIff | utxo_state.go:236-255 | listing again from a shown identifier continues where the listing stood exactly unless the zero identifier directly follows it |
| UtxoState.ListedStartsIff | utxo_fetching.go:51-54 | for every limit of at least one, pages from every listed start hold greater identifiers only, exactly when the list is in byte order |
| UtxoState.DocumentedOrderIff | utxo_fetching.go:51-54 | on a list in byte order, a page from any start holds greater identifiers only, exactly when the start is listed or lies below the whole list |
| UtxoState.SmallerIDListed | utxo_fetching.go:51-54 | a listed start from which a page returns a smaller identifier |
| UtxoState.SmallerIDFromUnlisted | utxo_state.go:42-46 | a start that is not listed, from which a page of a list in byte order returns a smaller identifier |
| UtxoState.FullListingIff | utxo_state.go:236-255 | a list is read in full from the empty start exactly when it does not hold the zero identifier |
| UtxoState.CallsAreCoherent | utxo_state.go:146-271 | every call and eviction keeps each cache entry (also "absent") equal to the table, keeps lists free of duplicates, and acts as a plain map |
| UtxoState.FreshCallsKeepInvariant | utxo_state.go:146-271 | with fresh puts every call keeps index and checksum exact |
| UtxoState.PutKeepsIndexIff | utxo_state.go:174-203 | the index stays exact under a put exactly when a replaced UTXO names no address that the new one lacks |
| UtxoState.PutKeepsChecksumIff | utxo_state.go:174-203 | the tracked checksum stays exact under a put exactly when the identifier is new or zero |
| UtxoState.HistoryRefinesPlainMap | utxo_state.go:146-297 | at every point of every history the store refines a plain map, lookups answer as that map, and fresh puts imply exact index and checksum |
| UtxoState.Reopen | utxo_state.go:89-103 | reopening the same database rebuilds the tracked checksum and keeps every invariant |
| Folds.XorRemove | utxo_state.go:291-297 | the XOR over a set does not depend on the order: any member can be taken out or toggled away |
| UtxoFetching.SortedList | utxo_fetching.go:71-73 | the addresses in strictly ascending order, each once |
| UtxoFetching.Scan | utxo_fetching.go:88-106 | the inner loop gathers first occurrences, counts the limit down, remembers the last identifier searched, and stops exactly when the limit is reached |
| UtxoFetching.SearchAddress | utxo_fetching.go:82-106 | one turn of the outer loop keeps "nothing skipped so far" |
| UtxoFetching.FetchIsWhole | utxo_fetching.go:67-107 | when the page is not full, a fetch was the whole list after the cursor, since a full fetch of searchSize distinct identifiers holds as many unseen ones as are wanted |
| UtxoFetching.NothingSkipped | utxo_fetching.go:67-107 | moving on to the next address skips nothing |
| UtxoFetching.StoppedInside | utxo_fetching.go:102-105 | stopping inside a list leaves exactly the entries after the returned cursor |
| UtxoFetching.GetPaginatedUTXOs | utxo_fetching.go:46-109 | for every coherent store and cursor, the page holds, without duplicates and in order, the first entries after the cursor and is short only when nothing is left; a full page returns the last identifier fetched with its address, and from a cursor with no zero identifier behind it ends exactly there; a short page returns the last address and identifier searched; it fails only on an entry that names no stored UTXO |
| UtxoFetching.ShortCursorIff | utxo_fetching.go:56-59 | the cursor of a short page names the last UTXO fetched exactly when the last address had something left to read and nothing new was searched after the last identifier searched was first met |
| UtxoFetching.LastFetchedIff | utxo_fetching.go:88-101 | the identifier searched last is the one fetched last exactly when nothing new was searched after it was first met |
| UtxoFetching.CutCovers | utxo_fetching.go:46-109 | page and what remains together are what there was |
| UtxoFetching.FullPagesAdvance | utxo_fetching.go:60-109 | a run of full pages is no longer than the number of entries after its start, so paging ends, and nothing is lost on the way |
| UtxoFetching.PaginationIsCompleteIff | utxo_fetching.go:60-109 | for every limit of at least one, paging from the empty cursor until a page is short yields the union of the index lists exactly when none holds the zero identifier |
| UtxoFetching.AscendingUnique | utxo_fetching.go:71-73 | a set of addresses has one strictly ascending list, so all calls walk the same list |
| UtxoFetching.ReadAllPages | utxo_fetching.go:46-109 | calling the reader from the empty cursor and feeding its cursor back until a page is short ends, never fails on an exact index, and returns all owned UTXOs exactly when the zero identifier is not owned, for every limit of at least one |
| UtxoFetching.OwnedInPlainTerms | utxo_fetching.go:46-47 | owned means stored, with one of the requested addresses among those of its output |
| UtxoFetching.GetAllUTXOs | utxo_fetching.go:35-44 | never fails on an exact index, returns owned UTXOs only and each once, and all of them exactly when they number at most MaxInt and none has the zero identifier |
| UtxoFetching.AddUp | utxo_fetching.go:23-32 | exact sum or overflow error |
| Utxo.AmountInPlainTerms | utxo_fetching.go:25-30 | an output counts with its amount, and with nothing when it has none |
| UtxoFetching.SumOfFetched | utxo_fetching.go:23-31 | the sum over a page is the sum over the set of its identifiers, in any order |
| UtxoFetching.GetBalance | utxo_fetching.go:18-33 | the exact sum of the counted amounts when it fits in 64 bits, an error otherwise; all owned UTXOs are counted exactly when they number at most MaxInt and none has the zero identifier |
| FlowChecker.FlowChecker.Add | flow_checker.go:35-41 | checked addition: exact, or one more error |
| FlowChecker.FlowChecker.Consume | flow_checker.go:27-29 | keeps the maps equal to the exact totals while those fit |
| FlowChecker.FlowChecker.Produce | flow_checker.go:31-33 | keeps the maps equal to the exact totals while those fit |
| FlowChecker.FlowChecker.Verify | flow_checker.go:43-54 | passes exactly when all exact totals fit in 64 bits and produced is at most consumed per asset, for any map order, and no earlier call of Verify failed |
| FlowChecker.OrderIsIrrelevant | flow_checker.go:27-41 | the same calls in any order give the same totals |
| Sorting.IsSortedAndUniqueByCompare | sort_helpers.go:16-23 | comparing neighbours decides strict order of all pairs |
| Bytes.CompareIff | utxo_id.go:96-98 | the first differing byte decides the order, and a proper prefix is smaller |
| Sorting.SortShortIDs | ed25519fx/output_owners.go:94-100 | the insertion sort in place gives a sorted permutation |
| Sorting.SortThenCheck | ed25519fx/output_owners.go:79-100 | after sorting, the sorted-and-unique scan passes exactly when the addresses were distinct |
| Sorting.AscendingIffDistinct | ed25519fx/output_owners.go:84-91 | strictly ascending is sorted and distinct |
| Transferables.CompareInputsIsOrder | utxo_id.go:93-100 | comparing by transaction and index is a strict order |
| Transferables.CompareInputsReverse | utxo_id.go:93-100 | comparing is antisymmetric and zero exactly for the same source |
| Transferables.NotLessTransitive | transferables.go:105-124 | the output order is transitive, so neighbours decide all pairs |
| Transferables.IsSortedTransferableOutputs | transferables.go:142-144 | decides that no later output belongs before an earlier one |
| Transferables.Swap | transferables.go:206-209 | both slices exchange the same places |
| Transferables.SwapsKeepPairs | transferables.go:206-215 | any sequence of exchanges keeps every input with its own signers |
| Transferables.SortedInputsPassIff | transferables.go:188-215 | a result sorted under Less passes the sorted-and-unique scan exactly when no two inputs spend the same output |
| Transferables.VerifyOutputs | transferables.go:230-240 | one output list: members verify and are in order, and the flow grew by exactly their amounts; the first unsound member is refused with its fault |
| Transferables.VerifyInputs | transferables.go:243-253 | one input list: members verify and strictly ascend, and the flow grew by exactly their amounts; the first unsound member is refused with its fault |
| Transferables.VerifyTx | transferables.go:219-256 | accepts exactly when every member is sound, every list is in canonical order and per asset outputs plus fee are at most the inputs, which fit in 64 bits; the first unsound member is refused with its fault; which of the order and flow errors is reported when |
| Transferables.MemberChecks | transferables.go:77-86 | a member passes exactly when it is not nil, has a non-nil inner value, a non-empty asset, and its inner value verifies; otherwise the error is the first of these that fails |
| Transferables.ListOkIff | transferables.go:105-124 | an output list passes exactly when its members are sound and in order of asset, then wire bytes |
| Transferables.InListOkIff | utxo_id.go:93-100 | an input list passes exactly when its members are sound and strictly in order of transaction, then index |
| Transferables.AcceptedIff | transferables.go:219-256 | acceptance in plain terms: canonical lists of sound members and, summed over all lists, per asset outputs plus fee at most inputs, which fit in 64 bits |
| Ledger.Consume | utxo_handler.go:9-13 | the identifiers of the inputs' transactions and indices are gone, nothing else changes; an exact store stays exact |
| Ledger.Produce | utxo_handler.go:17-32 | with distinct identifiers, output k is stored as it is under the transaction and index k, nothing else changes; with fresh identifiers an exact store stays exact |
| Ledger.SourcesAreGone | utxo_handler.go:9-13 | the identifiers of the inputs' sources are gone, every other entry is as before |
| Ledger.OutputsAreStored | utxo_handler.go:22-30 | output k is stored as it is under the transaction and the index k, every other entry is as before |
| Ledger.ConsumedWorth | utxo_handler.go:9-13 | consuming removes what the inputs claim minus what they claim twice |
| Ledger.ConsumptionIsExactIff | transferables.go:243-253 | the flow check counts what is really removed exactly when repeated sources are worthless |
| Ledger.ProducedWorth | utxo_handler.go:17-32 | producing adds exactly the amounts of the outputs that can be stored |
| Ledger.BalanceSheet | utxo_handler.go:9-32 | the exact change of every asset's total under a transaction, accepted or not |
| Ledger.ConservesIff | transferables.go:219-256 | a transaction keeps an asset's total, less the fee, exactly when its inputs pay for stored outputs, fee and what they claim twice |
| Ledger.TransactionConserves | transferables.go:219-256 | no asset's stored total grows under an accepted transaction with distinct inputs, and the fee asset's falls by at least the fee |
| Ledger.SingleListSpendsOnce | transferables.go:243-253 | acceptance of a single input list implies that no source is spent twice |
| Ledger.SharedInputMintsValue | transferables.go:243-253 | for any stored output of value whose double fits in 64 bits, an accepted transaction that names it in two lists and increases the total |
| Ledger.AcceptedPairFits | transferables.go:243-255 | that bound is needed: two inputs of one asset in an accepted transaction fit in 64 bits together |
| Ledger.Apply | transferables.go:219-256 | on one store: a refused transaction changes nothing; an accepted one removes the inputs' sources and stores each output under its index, and if it names stored UTXOs once each and takes fresh identifiers it keeps every store invariant and conserves every asset |
| Ledger.RunConserves | utxo_handler.go:9-32 | over every run the totals only fall, by at least all fees paid |
| FxCommon.VerifyIndices | secp256k1fx/input.go:35-44 | decides that indices strictly ascend |
| FxCommon.IndicesNameOwners | secp256k1fx/fx.go:186-215 | strictly ascending in-range indices into distinct owners name as many owners as there are indices, and there are fewer than 2^32 |
| Secp256k1Fx.VerifyOwners | secp256k1fx/output_owners.go:113-126 | decides well-formed owners |
| Secp256k1Fx.EqualOwners | secp256k1fx/output_owners.go:97-111 | decides equality of all fields |
| Secp256k1Fx.Fx.VerifyCredentials | secp256k1fx/fx.go:173-218 | once bootstrapped, accepts exactly when the clock reached the locktime, the counts match, and each signature recovers to a key whose address is the indexed owner; each error names its cause, and signature errors the first bad signature |
| Secp256k1Fx.AuthorizedInPlainTerms | secp256k1fx/fx.go:173-218 | authorization in plain terms: time and counts, and after bootstrapping each signature recovers to a key whose address is the indexed owner |
| Secp256k1Fx.Fx.VerifyPermission | secp256k1fx/fx.go:84-105 | well-formed input and owners, and authorization |
| Secp256k1Fx.Fx.VerifySpend | secp256k1fx/fx.go:161-169 | equal positive amounts, well-formed parts, and authorization |
| Secp256k1Fx.Fx.VerifyOperation | secp256k1fx/fx.go:130-138 | minting recreates the same owners and is authorized by them |
| Secp256k1Fx.AcceptanceNeedsThresholdOwners | secp256k1fx/fx.go:173-218 | acceptance yields exactly Threshold pairwise distinct owner addresses, for each of which a signature on this transaction recovers to a key of that address |
| Keychain.Keychain.constructor | secp256k1fx/keychain.go:83-94 | holds exactly the addresses of the given keys |
| Keychain.Keychain.Add | secp256k1fx/keychain.go:97-113 | adds a key unless its address is held; both indexes keep leading to the right key |
| Keychain.Keychain.Get | secp256k1fx/keychain.go:248-253 | finds a key exactly for held addresses, and one of that address |
| Keychain.Keychain.GetByEVM | secp256k1fx/keychain.go:128-133 | finds a key exactly for held account addresses, and one of that address |
| Keychain.Keychain.Match | secp256k1fx/keychain.go:207-220 | able exactly when the time has come and at least Threshold owners are held; returns the smallest held indices in order with their keys |
| Keychain.Keychain.Spend | secp256k1fx/keychain.go:183-204 | succeeds exactly when Match is able, with the output's amount; an unknown output type is refused |
| Keychain.HeldIndicesAre | secp256k1fx/keychain.go:207-220 | the held indices are the positions of held addresses, each once, ascending |
| Keychain.MatchInPlainTerms | secp256k1fx/keychain.go:207-220 | a match in plain terms: able exactly from the locktime on with Threshold held owners; ascending held positions, none smaller left out, each with a key of its owner's address |
| Keychain.MatchAuthorizes | secp256k1fx/keychain.go:207-220 | what Match returns, signed by the returned keys in order, authorizes at every clock from the asked time on |
| Keychain.WalletMeetsVerifier | secp256k1fx/keychain.go:183-220 | what Spend returns for a transfer output, so signed, passes VerifySpend at every clock from the asked time on |
| Keychain.MinterMeetsVerifier | secp256k1fx/keychain.go:183-220 | what Spend returns for a mint output, so signed, passes verifyOperation in an operation that recreates the owners and makes a well-formed transfer output |
| Keychain.NoSpendWithoutKeys | secp256k1fx/fx.go:173-218 | conversely, an accepted credential signed by held owners alone implies that Match finds enough keys |
| VerifyCache.KeyDeterminesCheck | mldsafx/fx.go:238-250 | equal cache keys come from equal key, message and signature, unless the hash collided on the strings hashed |
| VerifyCache.CacheAnswers | mldsafx/fx.go:205-213 | a remembered result is the true one, although the key leaves out the level, when key lengths tell levels |
| PQFx.VerifyOwners | mldsafx/output_owners.go:43-75 | decides well-formed owners: known level, keys of its length, sorted and unique |
| PQFx.VerifyCredential | mldsafx/credential.go:124-145 | decides well-formed credentials: non-empty, known level, signatures of its length |
| PQFx.ChecksInPlainTerms | mldsafx/output_owners.go:43-75 | both checks in plain terms, with the key and signature length of every level of both schemes |
| PQFx.AuthorizedInPlainTerms | slhdsafx/fx.go:182-231 | authorization in plain terms: time and counts, and after bootstrapping each indexed owner key parses at the owners' level and verifies its signature on the transaction |
| PQFx.EqualOwners | mldsafx/output_owners.go:112-127 | decides equality of all fields |
| PQFx.RememberedIsTrue | mldsafx/fx.go:205-213 | a remembered result is the true one in any history if keys parse at one level only and this one does not have another level's length, or if lengths told levels all along |
| PQFx.AlwaysAnsweredIff | mldsafx/fx.go:238-250 | remembered results answer a check truly in every state that satisfies the cache invariant exactly when its key does not have another level's length |
| PQFx.OtherLengthShows | mldsafx/fx.go:205-231 | for a key with another level's length, a state that satisfies the cache invariant in which a check that fails by itself is answered with yes |
| PQFx.DirectCallsShowTheCache | mldsafx/fx.go:184-235 | for every such key, two direct calls of VerifyCredentials: the first is accepted rightly, and while its result is kept the second is accepted although it is not authorized |
| PQFx.Fx.CheckSignature | mldsafx/fx.go:205-231 | the remembered result if there is one, else the true one; the true one in both cases when the key fits its level, under any evictions |
| PQFx.Fx.VerifyCredentials | mldsafx/fx.go:184-235 | called directly after any history, the verdict is the one without a cache if no owner key that an index names has another level's length (or lengths told levels all along), unless hashes collided; each count and time error names its cause, signature and bounds errors the first bad signature |
| PQFx.Fx.VerifyPermission | mldsafx/fx.go:94-115 | over every history of calls and evictions the verdict is the one without a cache, unless hashes collided, if keys parse at one level only; without that, over every history that kept to checked calls |
| PQFx.Fx.VerifySpend | mldsafx/fx.go:171-179 | the same for spending, with equal positive amounts |
| PQFx.Fx.VerifyOperation | slhdsafx/fx.go:138-146 | the same for minting, which recreates the same owners |
| PQFx.LengthTellsLevel | slhdsafx/credential.go:80-91 | the key lengths of the parameter sets are pairwise different, for both schemes |
| PQFx.LevelsStayTold | mldsafx/output_owners.go:43-75 | verified owners pin key length to level, so checked calls never mix levels in the cache |
| PQFx.PermitsNeedThresholdKeys | mldsafx/fx.go:184-235 | acceptance yields Threshold pairwise distinct owner keys that verify a signature on this transaction |
| PQKeychain.Keychain.Add | mldsafx/keychain.go:68-81 | adds a key unless its address is held; the index keeps leading to the right key |
| PQKeychain.Keychain.Match | mldsafx/keychain.go:131-150 | able exactly when the time has come and at least Threshold owner keys have held addresses; the smallest indices in order |
| PQKeychain.MatchInPlainTerms | mldsafx/keychain.go:131-150 | a match in plain terms, on the addresses derived from the owner keys |
| PQKeychain.WalletMeetsVerifierIff | mldsafx/keychain.go:131-150 | what Match returns, signed in order, is permitted at every later clock exactly when the threshold is positive |
| PubKeyFx.Fx.CheckSignature | schnorrfx/fx.go:224-263 | the remembered or computed result is the true one, where failures to parse are remembered as failed checks |
| PubKeyFx.AuthorizedInPlainTerms | schnorrfx/fx.go:194-266 | authorization in plain terms: time and counts, and after bootstrapping each place has a 32-byte public key of the indexed owner's address that verifies the signature, on the transaction or its tagged form |
| PubKeyFx.Fx.VerifyCredentials | ed25519fx/fx.go:196-256 | over every history and any evictions the verdict is the one without a cache, unless hashes collided; each count and time error names its cause |
| PubKeyFx.Fx.VerifyPermission | ed25519fx/fx.go:87-108 | well-formed input, credential and owners, and authorization |
| PubKeyFx.AcceptanceNeedsThresholdOwners | schnorrfx/fx.go:194-266 | acceptance names Threshold pairwise distinct owners, each with a key of that address that verifies a signature |
| BlsBitmap.KernighanStep | bls12381fx/types.go:145-152 | clearing the lowest set bit takes away exactly one bit |
| BlsBitmap.Popcount8 | bls12381fx/types.go:145-152 | counts the set bits of a byte |
| BlsBitmap.PopcountBitmap | bls12381fx/types.go:136-142 | counts the set bits modulo 2^32 |
| BlsBitmap.BitmapSetBits | bls12381fx/types.go:157-170 | lists the set bits below the committee size |
| BlsBitmap.SetBitsAre | bls12381fx/types.go:157-170 | that list is strictly ascending and holds exactly the set bits in range |
| BlsBitmap.CountsAgree | bls12381fx/types.go:136-170 | popcount and extraction over whole bytes agree |
| BlsBitmap.PopcountSplits | bls12381fx/types.go:136-170 | the popcount is the extracted bits plus those out of range, which are none exactly when no bit is out of range |
| BlsBitmap.ByteLess | bls12381fx/types.go:120-133 | shorter first, then lexicographic |
| BlsBitmap.VerifyOutput | bls12381fx/types.go:57-78 | decides well-formed outputs: keys of 48 bytes, strictly ascending, threshold within their number |
| BlsBitmap.Gate | bls12381fx/fx.go:132-143 | passes exactly when enough bits are in range and the number out of range is a multiple of 2^32 |
| BlsBitmap.GateDetectsOutOfRange | bls12381fx/fx.go:139-143 | below the limit it passes exactly when all set bits are in range and at least Threshold |
| BlsBitmap.GateExactIff | bls12381fx/fx.go:132-143 | for a verified output it does so on all bitmaps of a length exactly when they have fewer bits than 2^32 plus the committee size (2^32 for committees of 2^32 keys or more) |
| BlsBitmap.WrapHidesOutOfRange | bls12381fx/types.go:136-142 | at every length from the limit on, a bitmap that passes with a bit out of range |
| BlsBitmap.WrapRefusesCover | bls12381fx/types.go:136-142 | with 2^32 keys or more, a bitmap in range that is refused |
| BlsBitmap.AcceptedBitmapNamesDistinctKeys | bls12381fx/fx.go:132-143 | an accepted bitmap names at least Threshold pairwise distinct keys of a verified output |
| Wire.LittleEndianIsNumber | wire/signed_tx.go:93-98 | the shifts and joins read a number, lowest byte first |
| Wire.WellFormedIff | wire/discriminator.go:129-146 | an envelope is well formed exactly when its four size bytes, as a number, count the bytes behind the prefix |
| Wire.FirstEnvelopeIff | wire/signed_tx.go:81-103 | the split of both readers in plain terms: what the four size bytes count, and the two bytes before |
| Wire.NextEnvelope | wire/discriminator.go:129-146 | splits a well-formed envelope off and loses no byte |
| Wire.NextUndoesConcat | wire/discriminator.go:129-146 | undoes concatenation |
| Wire.SplitAllIff | wire/discriminator.go:129-146 | walking a blob ends and finds exactly the list of well-formed envelopes that it is the concatenation of |
| Wire.ConcatIsInjective | wire/signed_tx.go:178-198 | equal concatenations of well-formed envelopes come from equal lists |
| Wire.NewSignedTx | wire/signed_tx.go:178-198 | stores the count as uint32 and the concatenation |
| Wire.AllCredentials | wire/signed_tx.go:114-143 | the cursor loop is the recursive walk; what it returns is read from the delimited envelopes, type byte first |
| Wire.CredentialAt | wire/signed_tx.go:75-109 | the cursor loop is the recursive skip; what it returns is read from the i-th delimited envelope; out of range is refused |
| Wire.AtAgreesWithAll | wire/signed_tx.go:75-143 | where AllCredentials succeeds, CredentialAt finds its i-th element for all i |
| Wire.AllIffEach | wire/signed_tx.go:75-143 | AllCredentials succeeds exactly when CredentialAt does at every index |
| Wire.AtSucceedsIff | wire/signed_tx.go:75-109 | an index parses exactly when the headers delimit that many envelopes and the last of them is a credential; it then is that credential |
| Wire.AtInPlainTerms | wire/credential.go:124-140 | CredentialAt yields a credential exactly when the i-th delimited envelope carries it: type byte first, credential shape second, message parsed from what follows |
| Wire.AllInPlainTerms | wire/signed_tx.go:114-143 | AllCredentials yields a list exactly when each delimited envelope carries its element |
| Wire.AtCanSucceedAlone | wire/signed_tx.go:75-143 | an input on which CredentialAt succeeds and AllCredentials fails: a skipped envelope of another shape |
| Wire.SignedTxRoundTripIff | wire/signed_tx.go:114-198 | the credentials come back in order exactly when they number less than 2^32 |
| Wire.PackOwners | nftfx/wire.go:86-98 | the concatenation of the owner groups' envelopes |
| Wire.UnpackOwners | nftfx/wire.go:102-131 | the loop over the packed owners is the recursive walk |
| Wire.MintOwnersRoundTripIff | nftfx/wire.go:86-131 | owner groups whose own envelopes parse back come back exactly when they number less than 2^32 |
| CredentialWire.SplitUndoesJoinIff | wire/credential.go:78-102 | splitting by a stride undoes joining exactly when every piece has its length |
| CredentialWire.JoinUndoesSplitIff | wire/credential.go:78-102 | joining undoes splitting exactly when the run is a whole number of strides |
| CredentialWire.ReadSignatures | wire/credential.go:78-102 | reading by count and index gives the pieces, or none when the run is not whole |
| CredentialWire.SplitPubKeys | ed25519fx/wire.go:190-198 | the loop gives the whole 32-byte pieces |
| CredentialWire.EdBytes | ed25519fx/wire.go:159-174 | both runs are the concatenations in order |
| CredentialWire.EdWrap | ed25519fx/wire.go:179-201 | the runs split by their strides; another type is refused |
| CredentialWire.EdRoundTripIff | ed25519fx/wire.go:159-201 | a credential comes back exactly when every public key has 32 bytes |
| CredentialWire.PQBytes | mldsafx/wire.go:235-245 | the signature run is the concatenation in order, under the level byte |
| CredentialWire.PQWrap | mldsafx/wire.go:250-269 | the level byte chooses the stride; another type or an unknown level is refused |
| CredentialWire.OtherTypesRefused | mldsafx/wire.go:250-257 | each reader accepts its own type byte and known levels only, and reports which of the two was wrong |
| CredentialWire.PQRoundTripIff | slhdsafx/wire.go:212-244 | a credential comes back exactly when its level is known and every signature has that level's length, for both schemes |

## Left out

- Cryptography: ECDSA, Ed25519, BIP-340, ML-DSA, SLH-DSA, BLS and hashing are parameters with the assumptions stated in the theorems.
- Database, linked list and iterator errors: the store model follows the success paths; the table holds the UTXO itself, so parsing stored bytes is taken to give back what was stored.
- The place at which a linked list inserts a new key: any place is allowed, and an existing key keeps its place.
- The cache of index handles, metered caches, the recovered-key cache of secp256k1: not observable in the modelled results.
- Ledger.Apply: the repository leaves the sequence of check, Consume and Produce to the virtual machines that use it; one output list.
- InputID's memoisation: the identifier is a function of transaction and output index.
- Nil pointers and wrong dynamic types: arguments are typed, except that nil transferable inputs and outputs and their nil inner values are modelled.
- UtxoFetching.ReadAllPages: the store does not change between pages, where the code promises nothing else.
- UtxoFetching.SortedList: the library's sort of the address list is taken to be some sort, here the insertion sort of the same addresses.
- Transferables.Swap: the library's sort is any sequence of exchanges; that it ends in sorted order is its own contract.
- Ledger.Consume: the source works on the interfaces UTXOAdder and UTXODeleter, which the virtual machines implement; PutUTXO and DeleteUTXO of the store stand in for AddUTXO and DeleteUTXO.
- Ledger.Produce: one list of outputs per transaction; the fee is part of the transaction.
- PQFx.Fx.VerifyCredentials: that a key parses at one level only is an assumption on the signature library, stated as LengthsPinned; without it the verdict is stated for histories in which key lengths told levels.
- PQKeychain.WalletMeetsVerifierIff: assumes that no returned key shares its address with a different owner key of the output.
- PQKeychain.Keychain.Match: the SLH-DSA, Ed25519 and Schnorr keychains and the Spend wrappers are near copies and are not repeated.
- PubKeyFx.Fx.VerifyPermission: VerifySpend and verifyOperation of Ed25519 and Schnorr wrap the same VerifyCredentials as those of secp256k1 and are not repeated.
- BlsBitmap.Gate: the aggregate signature check and its cache after the gate are not modelled.
- Wire.NextEnvelope: the size field is read as four little-endian bytes; everything else inside a message is a parser given as a parameter, so stored fields are taken to read back.
- Field accessors, JSON, String methods, loggers, factories, key generation, address formatting, atomic UTXOs, base transactions: plumbing with no properties across functions.
- secp256r1fx, propertyfx and the remaining wire shapes: near copies that add nothing new.
