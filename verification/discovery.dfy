/** The pagination loop of `get_all_interesting_prediction_contracts` in
    `pdr_utils/subgraph.py`, over an abstract source of pages. */
module Discovery {
  import opened Wrappers
  import opened Subgraph

  /** Page size of every request: the subgraph's maximum. */
  const ChunkSize: nat := 1000

  /** What one request yields: the `predictContracts` list, or a failure (a non-200 status,
      a timeout, or an answer without `data.predictContracts`). */
  datatype Page = Fetched(records: seq<RawContract>) | Failed

  /** One entry of the result mapping. `lastSubmitedEpoch` keeps the source's spelling. */
  datatype Listing = Listing(
    name: string,
    address: string,
    symbol: string,
    blocksPerEpoch: int,
    blocksPerSubscription: int,
    lastSubmitedEpoch: int)

  /** The filter applied to every page.
      `AsWritten` is `filter_contracts` as the source has it: its first statement reads the
      local `owner_addrs` before assigning it (an UnboundLocalError), and its last returns
      the undefined name `pts_filtered` (a NameError), so every call raises.
      `Intended` returns the `filtered` list, with owners and filters passed in explicitly
      instead of read from the environment. */
  datatype FilterStep =
    | AsWritten
    | Intended(owners: seq<string>, filters: seq<Category>, keyHash: KeyHash)

  /** The offsets requested, in order, and the mapping returned. */
  datatype Run = Run(offsets: seq<nat>, contracts: map<string, Listing>)

  /** The page at index `k` (offset `k * ChunkSize`); past the end of the data the subgraph
      answers with an empty list. */
  function PageAt(pages: seq<Page>, k: nat): Page {
    if k < |pages| then pages[k] else Fetched([])
  }

  /** One call of the filter step; `None` when it raises. */
  function ApplyStep(step: FilterStep, records: seq<RawContract>): (r: Option<seq<RawContract>>)
    ensures r.None? <==> step.AsWritten?
    ensures r.Some? ==> |r.value| <= |records|
    ensures step.Intended? ==>
              r == Some(Seqs.Filter(records, (c: RawContract) => Admitted(c, step.owners, step.filters, step.keyHash)))
  {
    match step
    case AsWritten => None
    case Intended(owners, filters, keyHash) =>
      FilterContractsIsConjunction(records, owners, filters, keyHash);
      Some(FilterContracts(records, owners, filters, keyHash))
  }

  /* ---------------------------------------------------------------------------
     The result mapping
     --------------------------------------------------------------------------- */

  /** The entry the loop stores for one surviving record. */
  function ToListing(c: RawContract): (r: Listing)
    ensures WellKeyed(map[c.id := r])
    ensures r.name == c.name && r.symbol == c.symbol
    ensures r.blocksPerEpoch == c.blocksPerEpoch && r.blocksPerSubscription == c.blocksPerSubscription
  {
    Listing(c.name, c.id, c.symbol, c.blocksPerEpoch, c.blocksPerSubscription, 0)
  }

  ghost function Ids(records: seq<RawContract>): set<string> {
    set c | c in records :: c.id
  }

  /** No later record in `records` has the same id as the one at `i`. */
  ghost predicate LastWithId(records: seq<RawContract>, i: int) {
    0 <= i < |records| && forall j :: i < j < |records| ==> records[j].id != records[i].id
  }

  /** Every entry is filed under its own address and starts at epoch 0. */
  ghost predicate WellKeyed(m: map<string, Listing>) {
    forall id :: id in m ==> m[id].address == id && m[id].lastSubmitedEpoch == 0
  }

  /** The inner `for order in new_orders` loop: store each record under its id, a later
      record overwriting an earlier one with the same id. */
  function Record(acc: map<string, Listing>, records: seq<RawContract>): (r: map<string, Listing>)
    ensures acc.Keys <= r.Keys
    decreases |records|
  {
    if |records| == 0 then acc
    else Record(acc[records[0].id := ToListing(records[0])], records[1..])
  }

  /** The ids filed afterwards are those filed before and those of the records. */
  lemma {:induction false} RecordKeys(acc: map<string, Listing>, records: seq<RawContract>)
    ensures Record(acc, records).Keys == acc.Keys + Ids(records)
    decreases |records|
  {
    if |records| > 0 {
      RecordKeys(acc[records[0].id := ToListing(records[0])], records[1..]);
      assert Ids(records) == {records[0].id} + Ids(records[1..]) by {
        assert records == [records[0]] + records[1..];
      }
    }
  }

  /** Storing keeps every entry filed under its own address at epoch 0. */
  lemma {:induction false} RecordWellKeyed(acc: map<string, Listing>, records: seq<RawContract>)
    requires WellKeyed(acc)
    ensures WellKeyed(Record(acc, records))
    decreases |records|
  {
    if |records| > 0 {
      RecordWellKeyed(acc[records[0].id := ToListing(records[0])], records[1..]);
    }
  }

  /** Entries for ids the records do not mention are left as they were. */
  lemma {:induction false} RecordKeepsUntouched(acc: map<string, Listing>, records: seq<RawContract>)
    ensures forall id :: id in acc && id !in Ids(records) ==>
              id in Record(acc, records) && Record(acc, records)[id] == acc[id]
    decreases |records|
  {
    if |records| > 0 {
      var head := records[0];
      var tail := records[1..];
      RecordKeepsUntouched(acc[head.id := ToListing(head)], tail);
      assert Ids(records) == {head.id} + Ids(tail) by {
        assert records == [head] + tail;
      }
    }
  }

  /** The entry for every id the records mention comes from the LAST record with that id. */
  lemma {:induction false} RecordLastWins(acc: map<string, Listing>, records: seq<RawContract>)
    ensures forall i :: LastWithId(records, i) ==>
              records[i].id in Record(acc, records) && Record(acc, records)[records[i].id] == ToListing(records[i])
    decreases |records|
  {
    if |records| > 0 {
      var head := records[0];
      var tail := records[1..];
      var acc' := acc[head.id := ToListing(head)];
      RecordLastWins(acc', tail);
      RecordKeepsUntouched(acc', tail);
      var r := Record(acc, records);
      assert r == Record(acc', tail);
      forall i | LastWithId(records, i)
        ensures records[i].id in r && r[records[i].id] == ToListing(records[i])
      {
        if i == 0 {
          forall c | c in tail ensures c.id != head.id {
            var j :| 0 <= j < |tail| && tail[j] == c;
            assert records[j + 1] == c;
          }
          assert head.id !in Ids(tail);
        } else {
          assert records[i] == tail[i - 1];
          assert LastWithId(tail, i - 1) by {
            forall j | i - 1 < j < |tail| ensures tail[j].id != tail[i - 1].id {
              assert tail[j] == records[j + 1];
            }
          }
        }
      }
    }
  }

  /** An id `Record` adds comes from one of the records. */
  lemma {:induction false} RecordIdOrigin(acc: map<string, Listing>, records: seq<RawContract>, id: string) returns (i: nat)
    requires id in Record(acc, records) && id !in acc
    ensures i < |records| && records[i].id == id
    decreases |records|
  {
    if records[0].id == id {
      i := 0;
    } else {
      var j := RecordIdOrigin(acc[records[0].id := ToListing(records[0])], records[1..], id);
      i := j + 1;
    }
  }

  /** Storing two runs of records one after the other is storing their concatenation. */
  lemma {:induction false} RecordAppend(acc: map<string, Listing>, a: seq<RawContract>, b: seq<RawContract>)
    ensures Record(acc, a + b) == Record(Record(acc, a), b)
    decreases |a|
  {
    if |a| == 0 {
      assert a + b == b;
    } else {
      assert (a + b)[0] == a[0];
      assert (a + b)[1..] == a[1..] + b;
      RecordAppend(acc[a[0].id := ToListing(a[0])], a[1..], b);
    }
  }

  /* ---------------------------------------------------------------------------
     The pagination loop, over what each iteration's `try` block produced
     --------------------------------------------------------------------------- */

  /** What one iteration produced before storing: the filtered list, or `None` when the
      fetch or the filter raised. */
  type Outcome = Option<seq<RawContract>>

  /** The outcome at page index `k`; past the end, an empty filtered list. */
  function OutcomeAt(outs: seq<Outcome>, k: nat): Outcome {
    if k < |outs| then outs[k] else Some([])
  }

  /** Page `k` left records to store, so the loop goes on to page `k + 1`. */
  predicate Continues(outs: seq<Outcome>, k: nat) {
    var o := OutcomeAt(outs, k);
    o.Some? && |o.value| > 0
  }

  /** Page `k` raised. */
  predicate Aborts(outs: seq<Outcome>, k: nat) {
    OutcomeAt(outs, k).None?
  }

  /** The records one outcome contributes. */
  function Kept(o: Outcome): seq<RawContract> {
    if o.Some? then o.value else []
  }

  /** The records of pages `0 .. n-1`, in page order. */
  function Harvest(outs: seq<Outcome>, n: nat): seq<RawContract>
    decreases n
  {
    if n == 0 then [] else Harvest(outs, n - 1) + Kept(OutcomeAt(outs, n - 1))
  }

  /** The records of page `k` are among those harvested from any later stopping point. */
  lemma {:induction false} HarvestHas(outs: seq<Outcome>, n: nat, k: nat, c: RawContract)
    requires k < n && c in Kept(OutcomeAt(outs, k))
    ensures c in Harvest(outs, n)
    decreases n
  {
    if k < n - 1 {
      HarvestHas(outs, n - 1, k, c);
    }
  }

  /** Dropping the first page shifts every index down by one. */
  lemma {:induction false} HarvestShift(outs: seq<Outcome>, n: nat)
    requires |outs| > 0
    ensures Harvest(outs, n + 1) == Kept(outs[0]) + Harvest(outs[1..], n)
    decreases n
  {
    if n == 0 {
      assert Harvest(outs, 0) == [];
    } else {
      HarvestShift(outs, n - 1);
      assert OutcomeAt(outs, n) == OutcomeAt(outs[1..], n - 1);
      var first := Kept(outs[0]);
      var mid := Harvest(outs[1..], n - 1);
      var last := Kept(OutcomeAt(outs, n));
      assert Harvest(outs, n + 1) == Harvest(outs, n) + last;
      assert Harvest(outs[1..], n) == mid + last;
      assert (first + mid) + last == first + (mid + last);
    }
  }

  /** The `while True` loop from the page at `offset` on, with `acc` holding what earlier
      pages stored. It requests consecutive offsets, stops at the first page that raises or
      leaves nothing after filtering, and returns {} when a page raised. */
  function Paginate(outs: seq<Outcome>, offset: nat, acc: map<string, Listing>): (r: Run)
    ensures |r.offsets| >= 1
    ensures forall i :: 0 <= i < |r.offsets| ==> r.offsets[i] == offset + i * ChunkSize
    ensures forall k :: 0 <= k < |r.offsets| - 1 ==> Continues(outs, k)
    ensures !Continues(outs, |r.offsets| - 1)
    ensures Aborts(outs, |r.offsets| - 1) ==> r.contracts == map[]
    decreases |outs|
  {
    match OutcomeAt(outs, 0)
    case None => Run([offset], map[])
    case Some(kept) =>
      if |kept| == 0 then Run([offset], acc)
      else
        var rest := Paginate(outs[1..], offset + ChunkSize, Record(acc, kept));
        ContinuesShift(outs, |rest.offsets|);
        Run([offset] + rest.offsets, rest.contracts)
  }

  /** The pages a run from page 1 goes through are, shifted by one, pages the run from page
      0 goes through. */
  lemma ContinuesShift(outs: seq<Outcome>, n: nat)
    requires |outs| > 0 && n >= 1
    requires forall k :: 0 <= k < n - 1 ==> Continues(outs[1..], k)
    requires !Continues(outs[1..], n - 1)
    ensures forall k :: 0 < k < n ==> Continues(outs, k)
    ensures !Continues(outs, n)
    ensures Aborts(outs[1..], n - 1) == Aborts(outs, n)
  {
    forall k | 0 < k < n ensures Continues(outs, k) {
      assert Continues(outs[1..], k - 1);
      assert OutcomeAt(outs[1..], k - 1) == OutcomeAt(outs, k);
    }
    assert OutcomeAt(outs[1..], n - 1) == OutcomeAt(outs, n);
  }

  /** A run that did not abort holds exactly what storing the records of every page before
      the stopping one, in order, gives. */
  lemma {:induction false} PaginateHarvest(outs: seq<Outcome>, offset: nat, acc: map<string, Listing>)
    ensures var r := Paginate(outs, offset, acc);
            !Aborts(outs, |r.offsets| - 1) ==> r.contracts == Record(acc, Harvest(outs, |r.offsets| - 1))
    decreases |outs|
  {
    var o := OutcomeAt(outs, 0);
    if o.Some? && |o.value| > 0 {
      var kept := o.value;
      var next := Record(acc, kept);
      var rest := Paginate(outs[1..], offset + ChunkSize, next);
      var n := |rest.offsets|;
      assert Paginate(outs, offset, acc) == Run([offset] + rest.offsets, rest.contracts);
      PaginateHarvest(outs[1..], offset + ChunkSize, next);
      ContinuesShift(outs, n);
      if !Aborts(outs, n) {
        assert !Aborts(outs[1..], n - 1);
        var later := Harvest(outs[1..], n - 1);
        assert rest.contracts == Record(next, later);
        HarvestShift(outs, n - 1);
        assert Harvest(outs, n) == kept + later;
        RecordAppend(acc, kept, later);
      }
    }
  }

  /** Every entry a run files is filed under its own address and starts at epoch 0. */
  lemma {:induction false} PaginateWellKeyed(outs: seq<Outcome>, offset: nat, acc: map<string, Listing>)
    requires WellKeyed(acc)
    ensures WellKeyed(Paginate(outs, offset, acc).contracts)
    decreases |outs|
  {
    var o := OutcomeAt(outs, 0);
    if o.Some? && |o.value| > 0 {
      RecordWellKeyed(acc, o.value);
      PaginateWellKeyed(outs[1..], offset + ChunkSize, Record(acc, o.value));
    } else if o.None? {
      var empty: map<string, Listing> := map[];
      assert WellKeyed(empty);
    }
  }

  /** An id a run files that was not filed before belongs to a record kept from one of the
      pages. */
  lemma {:induction false} PaginateIdOrigin(outs: seq<Outcome>, offset: nat, acc: map<string, Listing>, id: string)
    returns (k: nat, i: nat)
    requires id in Paginate(outs, offset, acc).contracts && id !in acc
    ensures k < |outs| && outs[k].Some? && i < |outs[k].value| && outs[k].value[i].id == id
    decreases |outs|
  {
    var kept := OutcomeAt(outs, 0).value;
    var next := Record(acc, kept);
    var rest := Paginate(outs[1..], offset + ChunkSize, next);
    assert Paginate(outs, offset, acc).contracts == rest.contracts;
    if id in next {
      k := 0;
      i := RecordIdOrigin(acc, kept, id);
    } else {
      var k', i' := PaginateIdOrigin(outs[1..], offset + ChunkSize, next, id);
      k, i := k' + 1, i';
    }
  }

  /** A page that leaves nothing after filtering, reached with every earlier page leaving
      something, is the last one requested, and the run holds what the earlier pages left. */
  lemma EmptyOutcomeEndsRun(outs: seq<Outcome>, offset: nat, acc: map<string, Listing>, k: nat)
    requires forall j :: 0 <= j < k ==> Continues(outs, j)
    requires OutcomeAt(outs, k) == Some([])
    ensures |Paginate(outs, offset, acc).offsets| == k + 1
    ensures Paginate(outs, offset, acc).contracts == Record(acc, Harvest(outs, k))
  {
    StopIndex(outs, offset, acc, k);
    PaginateHarvest(outs, offset, acc);
  }

  /** When the last requested page does not raise, the run files every record kept from a
      page it requested. */
  lemma PaginateListsKept(outs: seq<Outcome>, offset: nat, acc: map<string, Listing>, k: nat, c: RawContract)
    requires !Aborts(outs, |Paginate(outs, offset, acc).offsets| - 1)
    requires k < |Paginate(outs, offset, acc).offsets|
    requires c in Kept(OutcomeAt(outs, k))
    ensures c.id in Paginate(outs, offset, acc).contracts
  {
    var r := Paginate(outs, offset, acc);
    var n := |r.offsets| - 1;
    assert Continues(outs, k);
    PaginateHarvest(outs, offset, acc);
    HarvestHas(outs, n, k, c);
    RecordKeys(acc, Harvest(outs, n));
    assert c.id in Ids(Harvest(outs, n));
  }

  /** The run requests exactly pages `0 .. k` when `k` is the first page that does not
      continue. */
  lemma StopIndex(outs: seq<Outcome>, offset: nat, acc: map<string, Listing>, k: nat)
    requires forall j :: 0 <= j < k ==> Continues(outs, j)
    requires !Continues(outs, k)
    ensures |Paginate(outs, offset, acc).offsets| == k + 1
  {
  }

  /** A page that raises ends the loop with {}, whatever earlier pages stored. */
  lemma AbortDiscards(outs: seq<Outcome>, offset: nat, acc: map<string, Listing>, k: nat)
    requires forall j :: 0 <= j < k ==> Continues(outs, j)
    requires Aborts(outs, k)
    ensures Paginate(outs, offset, acc).contracts == map[]
    ensures |Paginate(outs, offset, acc).offsets| == k + 1
  {
    StopIndex(outs, offset, acc, k);
  }

  /** A page that leaves nothing after filtering ends the loop: nothing after it matters. */
  lemma {:induction false} PaginateTruncate(outs: seq<Outcome>, k: nat, offset: nat, acc: map<string, Listing>)
    requires k < |outs| && outs[k] == Some([])
    ensures Paginate(outs, offset, acc) == Paginate(outs[..k], offset, acc)
    decreases k
  {
    if k > 0 {
      assert OutcomeAt(outs[..k], 0) == outs[0];
      assert outs[..k][1..] == outs[1..][..k - 1];
      var o := outs[0];
      if o.Some? && |o.value| > 0 {
        PaginateTruncate(outs[1..], k - 1, offset + ChunkSize, Record(acc, o.value));
      }
    }
  }

  /* ---------------------------------------------------------------------------
     Discovery over pages
     --------------------------------------------------------------------------- */

  /** What the `try` block makes of one page: the filtered list, or `None` when the fetch
      or the filter raises. */
  function Survivors(page: Page, step: FilterStep): (r: Outcome)
    ensures r.None? <==> page.Failed? || step.AsWritten?
    ensures r.Some? ==> |r.value| <= |page.records|
    ensures page.Fetched? && step.Intended? ==>
              r == Some(Seqs.Filter(page.records, (c: RawContract) => Admitted(c, step.owners, step.filters, step.keyHash)))
  {
    match page
    case Failed => None
    case Fetched(records) => ApplyStep(step, records)
  }

  /** The outcome of every page the loop could reach: the given pages and the empty page
      that follows them. */
  function Outcomes(pages: seq<Page>, step: FilterStep): (r: seq<Outcome>)
    ensures |r| == |pages| + 1
    ensures r[|pages|] == Survivors(Fetched([]), step)
    decreases |pages|
  {
    if |pages| == 0 then [Survivors(Fetched([]), step)]
    else [Survivors(pages[0], step)] + Outcomes(pages[1..], step)
  }

  /** Entry `i` of `Outcomes` is what page `i` yields. */
  lemma {:induction false} OutcomeOf(pages: seq<Page>, step: FilterStep, i: nat)
    requires i <= |pages|
    ensures Outcomes(pages, step)[i] == Survivors(PageAt(pages, i), step)
    decreases |pages|
  {
    if i > 0 {
      OutcomeOf(pages[1..], step, i - 1);
      assert PageAt(pages[1..], i - 1) == PageAt(pages, i);
    }
  }

  /** `get_all_interesting_prediction_contracts`: paginate from offset 0 with an empty
      mapping, applying the filter step to each fetched page. */
  function Discover(pages: seq<Page>, step: FilterStep): (r: Run)
    ensures |r.offsets| >= 1
    ensures forall i :: 0 <= i < |r.offsets| ==> r.offsets[i] == i * ChunkSize
  {
    Paginate(Outcomes(pages, step), 0, map[])
  }

  /** Every discovered entry is filed under its own address and starts at epoch 0. */
  lemma DiscoveredEntriesWellKeyed(pages: seq<Page>, step: FilterStep)
    ensures WellKeyed(Discover(pages, step).contracts)
  {
    var empty: map<string, Listing> := map[];
    assert WellKeyed(empty);
    PaginateWellKeyed(Outcomes(pages, step), 0, empty);
    assert Discover(pages, step) == Paginate(Outcomes(pages, step), 0, empty);
  }

  /** A record that survived the intended filter on a page was on that page and passes
      both the owner and the tag filters. */
  lemma SurvivorAdmitted(pages: seq<Page>, owners: seq<string>, filters: seq<Category>, keyHash: KeyHash, k: nat, c: RawContract)
    returns (i: nat)
    requires c in Kept(OutcomeAt(Outcomes(pages, Intended(owners, filters, keyHash)), k))
    ensures k < |pages| && pages[k].Fetched?
    ensures i < |pages[k].records| && pages[k].records[i] == c
    ensures Admitted(c, owners, filters, keyHash)
  {
    OutcomeOf(pages, Intended(owners, filters, keyHash), k);
    var records := pages[k].records;
    FilterContractsKeeps(records, owners, filters, keyHash);
    assert multiset(FilterContracts(records, owners, filters, keyHash))[c] > 0;
    assert c in records;
    i :| 0 <= i < |records| && records[i] == c;
  }

  /** Every contract discovery lists is filed under the address of a record fetched on one of
      the pages that passes the owner and tag filters. */
  lemma DiscoveredContractAdmitted(pages: seq<Page>, owners: seq<string>, filters: seq<Category>, keyHash: KeyHash, id: string)
    returns (k: nat, i: nat)
    requires id in Discover(pages, Intended(owners, filters, keyHash)).contracts
    ensures k < |pages| && pages[k].Fetched? && i < |pages[k].records|
    ensures pages[k].records[i].id == id
    ensures Admitted(pages[k].records[i], owners, filters, keyHash)
  {
    var outs := Outcomes(pages, Intended(owners, filters, keyHash));
    var empty: map<string, Listing> := map[];
    assert Discover(pages, Intended(owners, filters, keyHash)) == Paginate(outs, 0, empty);
    var j;
    k, j := PaginateIdOrigin(outs, 0, empty, id);
    i := SurvivorAdmitted(pages, owners, filters, keyHash, k, outs[k].value[j]);
  }

  /** With the intended filter, only a failed request can make a page raise. */
  lemma FetchedPageDoesNotAbort(pages: seq<Page>, owners: seq<string>, filters: seq<Category>, keyHash: KeyHash, k: nat)
    requires PageAt(pages, k).Fetched?
    ensures !Aborts(Outcomes(pages, Intended(owners, filters, keyHash)), k)
  {
    if k <= |pages| {
      OutcomeOf(pages, Intended(owners, filters, keyHash), k);
    }
  }

  /** A record on a fetched page that passes the owner and tag filters survives the
      intended filter step. */
  lemma AdmittedSurvives(pages: seq<Page>, owners: seq<string>, filters: seq<Category>, keyHash: KeyHash,
                         k: nat, c: RawContract)
    requires k < |pages| && pages[k].Fetched? && c in pages[k].records
    requires Admitted(c, owners, filters, keyHash)
    ensures c in Kept(OutcomeAt(Outcomes(pages, Intended(owners, filters, keyHash)), k))
  {
    OutcomeOf(pages, Intended(owners, filters, keyHash), k);
    var kept := FilterContracts(pages[k].records, owners, filters, keyHash);
    FilterContractsKeeps(pages[k].records, owners, filters, keyHash);
    assert multiset(kept)[c] > 0;
    assert PageAt(pages, k) == Fetched(pages[k].records);
  }

  /** When no request fails, a record kept from a requested page is listed. */
  lemma KeptContractDiscovered(pages: seq<Page>, owners: seq<string>, filters: seq<Category>, keyHash: KeyHash,
                               k: nat, c: RawContract)
    requires forall j :: 0 <= j < |Discover(pages, Intended(owners, filters, keyHash)).offsets| ==> PageAt(pages, j).Fetched?
    requires k < |Discover(pages, Intended(owners, filters, keyHash)).offsets|
    requires c in Kept(OutcomeAt(Outcomes(pages, Intended(owners, filters, keyHash)), k))
    ensures c.id in Discover(pages, Intended(owners, filters, keyHash)).contracts
  {
    var step := Intended(owners, filters, keyHash);
    var outs := Outcomes(pages, step);
    assert Discover(pages, step) == Paginate(outs, 0, map[]);
    var n := |Paginate(outs, 0, map[]).offsets| - 1;
    FetchedPageDoesNotAbort(pages, owners, filters, keyHash, n);
    PaginateListsKept(outs, 0, map[], k, c);
  }

  /** Conversely, when no request fails, every record on a requested page that passes the
      owner and tag filters is listed under its address. */
  lemma AdmittedContractDiscovered(pages: seq<Page>, owners: seq<string>, filters: seq<Category>, keyHash: KeyHash,
                                   k: nat, c: RawContract)
    requires forall j :: 0 <= j < |Discover(pages, Intended(owners, filters, keyHash)).offsets| ==> PageAt(pages, j).Fetched?
    requires k < |Discover(pages, Intended(owners, filters, keyHash)).offsets|
    requires k < |pages| && pages[k].Fetched? && c in pages[k].records && Admitted(c, owners, filters, keyHash)
    ensures c.id in Discover(pages, Intended(owners, filters, keyHash)).contracts
  {
    AdmittedSurvives(pages, owners, filters, keyHash, k, c);
    KeptContractDiscovered(pages, owners, filters, keyHash, k, c);
  }

  /** The loop stops at the first page whose filtered list is empty: what later pages hold,
      matches included, never affects the run. */
  lemma StopsAtFirstEmptyPage(pages: seq<Page>, k: nat, step: FilterStep)
    requires k < |pages|
    requires Survivors(pages[k], step) == Some([])
    ensures Discover(pages, step) == Discover(pages[..k], step)
  {
    var outs := Outcomes(pages, step);
    var cut := Outcomes(pages[..k], step);
    assert step.Intended?;
    OutcomeOf(pages, step, k);
    OutcomeOf(pages[..k], step, k);
    assert cut[k] == Some([]);
    forall j | 0 <= j < k ensures outs[j] == cut[j] {
      OutcomeOf(pages, step, j);
      OutcomeOf(pages[..k], step, j);
      assert PageAt(pages[..k], j) == PageAt(pages, j);
    }
    assert outs[..k] == cut[..k];
    PaginateTruncate(outs, k, 0, map[]);
    PaginateTruncate(cut, k, 0, map[]);
  }

  /** A page that raises, in the fetch or in the filter, discards everything gathered from
      earlier pages: the call returns {} and requests nothing further. */
  lemma FailureDiscardsEverything(pages: seq<Page>, k: nat, step: FilterStep)
    requires forall j :: 0 <= j < k ==> Continues(Outcomes(pages, step), j)
    requires Aborts(Outcomes(pages, step), k)
    ensures Discover(pages, step).contracts == map[]
    ensures |Discover(pages, step).offsets| == k + 1
  {
    AbortDiscards(Outcomes(pages, step), 0, map[], k);
  }

  /** The first page whose filtered list is empty is the last one requested, and the mapping
      holds exactly what storing the surviving records of the pages before it gives. */
  lemma EmptyPageEndsDiscovery(pages: seq<Page>, k: nat, step: FilterStep)
    requires forall j :: 0 <= j < k ==> Continues(Outcomes(pages, step), j)
    requires Survivors(PageAt(pages, k), step) == Some([])
    ensures |Discover(pages, step).offsets| == k + 1
    ensures Discover(pages, step).offsets[k] == k * ChunkSize
    ensures Discover(pages, step).contracts == Record(map[], Harvest(Outcomes(pages, step), k))
  {
    var outs := Outcomes(pages, step);
    if k <= |pages| {
      OutcomeOf(pages, step, k);
    }
    EmptyOutcomeEndsRun(outs, 0, map[], k);
  }

  /** With the filter step as written, discovery finds nothing, whatever the subgraph holds. */
  lemma AsWrittenFindsNothing(pages: seq<Page>)
    ensures Discover(pages, AsWritten) == Run([0], map[])
  {
  }

  /** One page with one contract owned by an allowed owner and carrying no tags: the intended
      filter lists it, the filter as written loses it. */
  lemma AsWrittenLosesListedContract(keyHash: KeyHash)
    ensures var c := RawContract("0xc0", "ETH-USDT", "ETHUSDT", "0xa1", None, 300, 86400);
            var pages := [Fetched([c])];
            && Discover(pages, Intended(["0xa1"], [], keyHash)).contracts == map["0xc0" := ToListing(c)]
            && Discover(pages, AsWritten).contracts == map[]
  {
    var c := RawContract("0xc0", "ETH-USDT", "ETHUSDT", "0xa1", None, 300, 86400);
    var pages := [Fetched([c])];
    var step := Intended(["0xa1"], [], keyHash);
    assert Admitted(c, ["0xa1"], [], keyHash);
    var outs := Outcomes(pages, step);
    OutcomeOf(pages, step, 0);
    OutcomeOf(pages, step, 1);
    var kept := outs[0].value;
    assert c in kept;
    assert kept == [c];
    assert Continues(outs, 0);
    assert outs[1] == Some([]);
    StopIndex(outs, 0, map[], 1);
    assert Harvest(outs, 1) == [c];
    AsWrittenFindsNothing(pages);
  }

  /** Page 1 yields contracts that all pass, page 2 yields only rejected ones: two requests
      (offsets 0 and 1000) and exactly page 1's contracts in the mapping. */
  lemma SecondPageRejectedStops(pages: seq<Page>, step: FilterStep)
    requires Continues(Outcomes(pages, step), 0)
    requires Survivors(PageAt(pages, 1), step) == Some([])
    ensures Discover(pages, step) == Run([0, ChunkSize], Record(map[], Kept(Survivors(PageAt(pages, 0), step))))
  {
    var outs := Outcomes(pages, step);
    OutcomeOf(pages, step, 0);
    if |pages| >= 1 {
      OutcomeOf(pages, step, 1);
    }
    OneFullPageThenEmpty(outs, map[]);
  }

  /** The two-page scenario stated over outcomes: a first page that leaves records and a
      second that leaves none. */
  lemma OneFullPageThenEmpty(outs: seq<Outcome>, acc: map<string, Listing>)
    requires Continues(outs, 0)
    requires OutcomeAt(outs, 1) == Some([])
    ensures Paginate(outs, 0, acc) == Run([0, ChunkSize], Record(acc, Kept(outs[0])))
  {
  }
}
