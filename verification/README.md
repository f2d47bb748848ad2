# Prediction-contract discovery, modelled in Dafny

This project models the contract-discovery core of `pdr_utils`, the Python helper library of
the Ocean Predictoor bots, together with the few pure fragments of its `PredictorContract`
wrapper.

- **`satisfies_filters`** (module `Subgraph`) is the metadata-tag predicate. It checks an NFT's
  `{key, value}` tags against a dictionary from category name to allowed values. Tag data that
  is missing or empty passes. A category with no allowed values is skipped. A category whose
  Keccak digest matches no tag key is skipped. Otherwise the first tag with that key decides.
  The code's loop is proved equal to a declarative AND over the categories (`Accepts`).
- **`filter_by_owners` and `filter_contracts`** (module `Subgraph`) are order-preserving filters.
  They are written on a generic `Seqs.Filter`, the shape of a Python list comprehension.
- **`get_all_interesting_prediction_contracts`** (module `Discovery`) is the pagination loop. It
  runs over an abstract sequence of pages: page `k` is the answer at offset `1000 * k`, and
  every page past the end is empty.
  - The loop itself (`Paginate`) is stated over what each iteration's `try` block produced: the
    filtered list, or `None` when the block raised.
  - `Discover` feeds it the pages through a filter step.
  - The filter step is either the intended `filter_contracts` or `filter_contracts` as written,
    which always raises.
- **`string_to_bytes32`, the `v` normalisation of `get_auth_signature` and `buy_many`** are in
  module `Contract`.

The Keccak-256 digest of a category name is a parameter (`KeyHash`), so every result holds for
any digest function, apart from the distinct digests the multi-filter scenarios assume. Owners and filters are parameters too; the source reads them from
environment variables.

On any exception the function returns `{}` from its `except` block
(`pdr_utils/subgraph.py:130-132`), discarding everything gathered; the model follows it
(`Discovery.FailureDiscardsEverything`).

## Model

| member | source | states |
|---|---|---|
| Subgraph.ValuesWithKey | pdr_utils/subgraph.py:27-33 | the matching values are empty exactly when no tag carries the key; otherwise the first one is the value of the first tag carrying it |
| Subgraph.SatisfiesFilters | pdr_utils/subgraph.py:19-21 | missing (`None`) or empty tag data passes whatever the filters |
| Subgraph.CategoryStep | pdr_utils/subgraph.py:24-38 | one iteration of the category loop passes exactly when the category passes the policy: key absent, or first matching value allowed |
| Subgraph.CategoriesPass | pdr_utils/subgraph.py:23-40 | the category loop returns true exactly when every category passes the policy: AND semantics, whatever the position of a failing category |
| Subgraph.SatisfiesFiltersIff | pdr_utils/subgraph.py:19-40 | `satisfies_filters` holds exactly when the tags are missing/empty or every category passes the policy (both directions) |
| Subgraph.NoConstraintAccepts | pdr_utils/subgraph.py:23-25 | when no category has allowed values (including no categories at all) everything passes |
| Subgraph.AbsentCategoryNeverRejects | pdr_utils/subgraph.py:27-33 | inserting anywhere a category whose digest tags nothing leaves the verdict unchanged |
| Subgraph.FirstTagDecides | pdr_utils/subgraph.py:27-38 | for a constrained category present in the tags, passing implies the FIRST matching tag's value is allowed, whatever later tags hold |
| Subgraph.CategoryOrderIrrelevant | pdr_utils/subgraph.py:23-40 | two filter lists with the same categories in any order give the same verdict |
| Subgraph.SatisfiesFiltersScenarios | pdr_utils/test/test_subgraph.py:9-31 | the no-data, no-filter, single-filter accept and single-filter reject scenarios of the test, for any digest |
| Subgraph.MultiFilterScenarios | pdr_utils/test/test_subgraph.py:33-68 | the multi-filter scenarios: both match, one fails, multi-value list, missing category, for any digest keeping the names apart |
| Seqs.FilterKeeps | pdr_utils/subgraph.py:55-58 | a list comprehension's result is an order-preserving subsequence holding each element that passes the test exactly as often as the input, and no other |
| Subgraph.FilterByOwnersKeeps | pdr_utils/subgraph.py:54-58 | the result is an order-preserving subsequence holding exactly the records whose owner id is in the list, each as often as in the input |
| Subgraph.FilterByOwners | pdr_utils/subgraph.py:54-58 | the owner filter returns no more records than it got; which ones, in what order, is `FilterByOwnersKeeps` |
| Subgraph.FilterContractsKeeps | pdr_utils/subgraph.py:60-78 | intended `filter_contracts`: a subsequence of the input holding exactly the records that pass both the owner and the tag filter, with their multiplicities |
| Subgraph.FilterContracts | pdr_utils/subgraph.py:60-78 | intended `filter_contracts` returns no more records than it got; which ones, in what order, is `FilterContractsKeeps` |
| Seqs.FilterFusion | pdr_utils/subgraph.py:62-76 | filtering twice keeps exactly what passes both tests, in order |
| Subgraph.FilterContractsIsConjunction | pdr_utils/subgraph.py:62-76 | the two stages of `filter_contracts` equal a single filter on the conjunction of owner and tag tests |
| Discovery.ApplyStep | pdr_utils/subgraph.py:60-78 | the filter step raises exactly when it is the function as written; the intended one yields, in order, exactly the records that pass both the owner and the tag filter |
| Discovery.ToListing | pdr_utils/subgraph.py:122-129 | the stored entry is filed under its own address with `last_submited_epoch` 0, and copies the token name, symbol and block counts of the record |
| Discovery.Record | pdr_utils/subgraph.py:121-129 | storing records never drops an id already filed; the full content is `RecordKeys`, `RecordLastWins` and `RecordKeepsUntouched` |
| Discovery.RecordKeys | pdr_utils/subgraph.py:121-129 | after storing, the mapping's keys are the earlier keys plus the ids of the stored records |
| Discovery.RecordKeepsUntouched | pdr_utils/subgraph.py:121-129 | entries for ids no stored record carries are kept unchanged |
| Discovery.RecordLastWins | pdr_utils/subgraph.py:121-129 | for every id the records carry, the entry is the listing of the LAST record with that id: later records overwrite earlier ones |
| Discovery.RecordIdOrigin | pdr_utils/subgraph.py:121-122 | every newly filed id is the id of one of the stored records |
| Discovery.RecordWellKeyed | pdr_utils/subgraph.py:122-129 | storing keeps every entry filed under its own address with `last_submited_epoch` 0 |
| Discovery.RecordAppend | pdr_utils/subgraph.py:121-129 | storing two pages one after the other is storing their concatenation |
| Discovery.Paginate | pdr_utils/subgraph.py:81-133 | the loop requests consecutive offsets 1000 apart, goes on exactly while pages leave records, stops at the first page that raises or leaves none, and returns {} when a page raised |
| Discovery.PaginateHarvest | pdr_utils/subgraph.py:115-129 | a run that did not abort holds what storing, in page order, the records of every page before the stopping one gives |
| Discovery.PaginateWellKeyed | pdr_utils/subgraph.py:121-129 | every entry a run files is under its own address with epoch 0 |
| Discovery.PaginateIdOrigin | pdr_utils/subgraph.py:117-129 | every id a run files comes from a record kept from one of the pages |
| Discovery.PaginateListsKept | pdr_utils/subgraph.py:117-129 | when the last requested page does not raise, every record kept from a requested page has its id filed |
| Discovery.StopIndex | pdr_utils/subgraph.py:117-120 | the run requests exactly pages 0 to k when k is the first page that does not continue |
| Discovery.EmptyOutcomeEndsRun | pdr_utils/subgraph.py:117-129 | the first page leaving nothing is the last requested and the mapping holds what the earlier pages left |
| Discovery.AbortDiscards | pdr_utils/subgraph.py:130-132 | a page that raises ends the run with {} whatever earlier pages stored |
| Discovery.PaginateTruncate | pdr_utils/subgraph.py:119-120 | nothing after a page that leaves no records affects the run |
| Discovery.OutcomeOf | pdr_utils/subgraph.py:115-117 | the outcome of page i is the filter step applied to the fetched page, or a failure |
| Discovery.Survivors | pdr_utils/subgraph.py:115-117 | the `try` block raises on a page exactly when the fetch failed or the filter is the one as written; with the intended filter a fetched page yields, in order, exactly its records that pass both filters |
| Discovery.Outcomes | pdr_utils/subgraph.py:115-120 | one outcome per page plus one for the empty page past the end, which is what an empty answer yields; entry `i` is `OutcomeOf` |
| Discovery.Discover | pdr_utils/subgraph.py:82-114 | discovery requests at least one page, at offsets 0, 1000, 2000, ... in order |
| Discovery.DiscoveredEntriesWellKeyed | pdr_utils/subgraph.py:121-129 | every discovered entry is filed under its own address with epoch 0 |
| Discovery.SurvivorAdmitted | pdr_utils/subgraph.py:115-117 | a record surviving the intended filter on page k was on that fetched page and passes both filters |
| Discovery.DiscoveredContractAdmitted | pdr_utils/subgraph.py:81-133 | every discovered id is the id of a record on a fetched page that passes the owner and tag filters |
| Discovery.FetchedPageDoesNotAbort | pdr_utils/subgraph.py:115-117 | with the intended filter a page raises only when its request failed: a fetched page, or the empty page past the end, never does |
| Discovery.AdmittedSurvives | pdr_utils/subgraph.py:115-117 | a record on a fetched page that passes both filters survives the filter step |
| Discovery.KeptContractDiscovered | pdr_utils/subgraph.py:117-129 | when no requested page fails (pages past the stopping one may), a record kept from a requested page is listed |
| Discovery.AdmittedContractDiscovered | pdr_utils/subgraph.py:81-133 | when no requested page fails (pages past the stopping one may), every record on a requested page that passes both filters is listed under its address |
| Discovery.StopsAtFirstEmptyPage | pdr_utils/subgraph.py:119-120 | the loop stops at the first page whose filtered list is empty: later pages, matches included, never affect the result |
| Discovery.FailureDiscardsEverything | pdr_utils/subgraph.py:130-132 | a fetch or filter failure on a reached page returns {} and requests nothing further |
| Discovery.EmptyPageEndsDiscovery | pdr_utils/subgraph.py:114-129 | the first page whose filtered list is empty is the last requested, at offset 1000 k, and the mapping holds what the earlier pages left |
| Discovery.SecondPageRejectedStops | pdr_utils/subgraph.py:114-129 | a first page that yields records followed by one that yields none gives offsets 0 and 1000 and exactly the first page's records |
| Discovery.OneFullPageThenEmpty | pdr_utils/subgraph.py:119-129 | the same two-page shape stated for the loop over outcomes |
| Discovery.AsWrittenFindsNothing | pdr_utils/subgraph.py:60-78 | with `filter_contracts` as written, discovery requests one page and returns {} whatever the subgraph holds |
| Discovery.AsWrittenLosesListedContract | pdr_utils/subgraph.py:60-78 | one owned, untagged contract: the intended filter lists it, the filter as written returns {} |
| Contract.LJust | pdr_utils/contract.py:98 | `ljust` keeps the string as a prefix and pads with the fill character up to the width |
| Contract.StringToBytes32 | pdr_utils/contract.py:94-99 | always 32 characters; a longer input gives its first 32; a shorter one is a prefix followed by '0's |
| Contract.StringToBytes32Idempotent | pdr_utils/contract.py:95-98 | a 32-character input comes back unchanged, so encoding twice equals encoding once |
| Contract.StringToBytes32PaddingAmbiguous | pdr_utils/contract.py:97-98 | an input and the same input with a trailing '0' encode alike: the encoding is not injective |
| Contract.NormalizeV | pdr_utils/contract.py:117 | `v` is either kept or moved up by 27, only a value of at most 1 is moved, and a non-negative `v` never comes out as a raw recovery id 0 or 1 |
| Contract.NormalizeVConventionsAgree | pdr_utils/contract.py:117 | recovery ids 0 and 1 become 27 and 28, the values the other convention already uses |
| Contract.NormalizeVIdempotent | pdr_utils/contract.py:117 | for non-negative v, normalising twice equals normalising once, and the result is never 0 or 1 |
| Contract.BuyMany | pdr_utils/contract.py:183-188 | no purchase is attempted when `how_many < 1`; otherwise attempts run, each with the given gas limit, up to and including the first that raises (the steps at contract.py:126-136 sit outside the `try` of `buy_and_start_subscription`, and `buy_many` catches nothing), and exactly `how_many` of them when none raises |

## Left out

- `query_subgraph` (HTTP POST, timeout, status check, JSON decoding): a page is an abstract `Fetched(records)` or `Failed`.
- Environment-variable reads (`OWNER_ADDRS`, `PAIR_FILTER`, `TIMEFRAME_FILTER`, `SOURCE_FILTER`) and `hexify_keys`: owners and filter values are parameters.
- The Keccak-256 digest of category names: the digest is the parameter `KeyHash` and no hashing is modelled.
- The GraphQL query text: only the offset it requests is modelled.
- `print` calls: they have no effect on results.
- Records with a missing or null field cannot be represented with typed records: a `KeyError` while storing, or a missing `token.nft.owner.id` (`pdr_utils/subgraph.py:57`), tag `key` (:29) or `nftData` (:73) while filtering. Processing such a page raises and returns `{}` exactly as a `Failed` page does, so a `Failed` page stands for all of these.
- `Subgraph.FilterByOwners`: its contract bounds only the length; the kept records are stated by `FilterByOwnersKeeps`, which keeps the characterisation out of every proof that unfolds the filter.
- `Subgraph.FilterContracts`: its contract bounds only the length; the kept records are stated by `FilterContractsKeeps`, for the same reason.
- `Discovery.Record`: its contract states only that ids are never dropped; the keys and entries it files are stated by the `Record*` lemmas, for the same reason.
- `Discovery.Outcomes`: its contract states the length and the last entry; every other entry is stated by `OutcomeOf`.
- `Discovery.Paginate`: its contract states the offsets, where the run stops and that a raise gives {}; what a run that did not abort holds is stated by `PaginateHarvest`, which keeps the characterisation out of every proof that unfolds the loop.
- `Discovery.Discover`: its contract states only the offsets. How far the run goes and what it holds are stated by the lemmas about it.
- `Contract.StringToBytes32`: works on characters, not UTF-8 bytes, so the 32-byte length holds only for ASCII input.
- `Contract.NormalizeV`: negative values are modelled as the expression computes them, although ECDSA never produces them.
- `Contract.BuyMany`: what `buy_and_start_subscription` does (exchange lookup, approval, transaction building and signing) is a web3 call and is not modelled; whether each attempt raises is the parameter `raises`, and an attempt that returns `None` (no exchange, or a failure inside its `try`) counts as one that returned.
- Everything else in `pdr_utils/contract.py`: ECDSA signing and the EIP-191 prefix, the `r`/`s` padding, `get_agg_predval`'s float division, `to_wei`, and every contract call. These are cryptography, floating point or foreign calls to an Ethereum node.
- ABI file discovery and `setup.py`: filesystem and packaging only.

## Findings

| source | as written | input that shows it | evidently intended | confidence | as-written member | corrected member |
|---|---|---|---|---|---|---|
| pdr_utils/subgraph.py:60-78 | `filter_contracts` reads the local `owner_addrs` before assigning it (UnboundLocalError) and returns the undefined name `pts_filtered` (NameError). Every call raises, and the loop's `except` turns that into `{}`. | one page holding contract `0xc0`, owned by `0xa1`, with no tags; owners `["0xa1"]`, no filters | return the `filtered` list of owned contracts that pass the tag filter, so discovery lists `0xc0` | not executed | Discovery.AsWrittenLosesListedContract | Subgraph.FilterContractsIsConjunction |
