/** Contract-discovery filtering of `pdr_utils/subgraph.py`: the metadata-tag predicate
    `satisfies_filters`, the owner filter and their composition. */
module Subgraph {
  import opened Wrappers
  import Seqs

  /** One `{key, value}` entry of an NFT's on-chain metadata. Keys written by the publisher
      are hex digests of a category name. */
  datatype Tag = Tag(key: string, value: string)

  /** One element of the subgraph's `predictContracts` answer, reduced to the fields that
      discovery reads. `nftData` is `None` when the subgraph returns null. */
  datatype RawContract = RawContract(
    id: string,
    name: string,
    symbol: string,
    ownerId: string,
    nftData: Option<seq<Tag>>,
    blocksPerEpoch: int,
    blocksPerSubscription: int)

  /** One entry of the filter dictionary: a category name and its allowed values.
      An empty list (the source's `None` or `[]`) leaves the category unconstrained. */
  datatype Category = Category(name: string, allowed: seq<string>)

  /** The digest that tags a category name on chain (Keccak-256 of the UTF-8 name,
      rendered as hex). It is a parameter: the hashing itself is not modelled. */
  type KeyHash = string -> string

  /* ---------------------------------------------------------------------------
     Declarative reading of the filter policy
     --------------------------------------------------------------------------- */

  /** No tag carries `key`. */
  ghost predicate KeyAbsent(tags: seq<Tag>, key: string) {
    forall i :: 0 <= i < |tags| ==> tags[i].key != key
  }

  /** `i` is the position of the first tag carrying `key`. */
  ghost predicate IsFirstWithKey(tags: seq<Tag>, key: string, i: int) {
    0 <= i < |tags| && tags[i].key == key && forall j :: 0 <= j < i ==> tags[j].key != key
  }

  /** The policy for one category: unconstrained, absent from the tags, or the value of the
      first matching tag is among the allowed values. */
  ghost predicate CategoryPasses(tags: seq<Tag>, c: Category, keyHash: KeyHash) {
    || |c.allowed| == 0
    || KeyAbsent(tags, keyHash(c.name))
    || exists i :: IsFirstWithKey(tags, keyHash(c.name), i) && tags[i].value in c.allowed
  }

  /** Missing or empty tag data, or every category passes. */
  ghost predicate Untagged(nftData: Option<seq<Tag>>) {
    nftData.None? || |nftData.value| == 0
  }

  ghost predicate Accepts(nftData: Option<seq<Tag>>, filters: seq<Category>, keyHash: KeyHash) {
    Untagged(nftData) || forall k :: 0 <= k < |filters| ==> CategoryPasses(nftData.value, filters[k], keyHash)
  }

  /* ---------------------------------------------------------------------------
     satisfies_filters
     --------------------------------------------------------------------------- */

  /** The values of all tags whose key is `key`, in tag order. */
  function ValuesWithKey(tags: seq<Tag>, key: string): (r: seq<string>)
    ensures |r| == 0 <==> KeyAbsent(tags, key)
    ensures |r| > 0 ==> exists i :: IsFirstWithKey(tags, key, i) && r[0] == tags[i].value
    decreases |tags|
  {
    if |tags| == 0 then []
    else
      var rest := ValuesWithKey(tags[1..], key);
      if tags[0].key == key then
        assert IsFirstWithKey(tags, key, 0);
        [tags[0].value] + rest
      else
        assert forall i :: 0 < i < |tags| ==> tags[i] == tags[1..][i - 1];
        assert |rest| > 0 ==> exists i :: IsFirstWithKey(tags, key, i) && rest[0] == tags[i].value by {
          if |rest| > 0 {
            var i :| IsFirstWithKey(tags[1..], key, i) && rest[0] == tags[1..][i].value;
            assert IsFirstWithKey(tags, key, i + 1);
          }
        }
        rest
  }

  /** The category loop of `satisfies_filters`, over the categories in dictionary order. It
      accepts exactly when every category passes: AND semantics, independent of where in the
      loop a failing category sits. */
  function CategoriesPass(tags: seq<Tag>, filters: seq<Category>, keyHash: KeyHash): (r: bool)
    ensures r <==> forall k :: 0 <= k < |filters| ==> CategoryPasses(tags, filters[k], keyHash)
    decreases |filters|
  {
    if |filters| == 0 then true
    else
      var c := filters[0];
      assert forall k :: 0 < k < |filters| ==> filters[k] == filters[1..][k - 1];
      CategoryStep(tags, c, keyHash);
      if |c.allowed| == 0 then CategoriesPass(tags, filters[1..], keyHash)
      else
        var values := ValuesWithKey(tags, keyHash(c.name));
        if |values| == 0 then CategoriesPass(tags, filters[1..], keyHash)
        else if values[0] !in c.allowed then false
        else CategoriesPass(tags, filters[1..], keyHash)
  }

  /** `satisfies_filters(nft_data, filters)`: whether a contract's tags are admitted. */
  function SatisfiesFilters(nftData: Option<seq<Tag>>, filters: seq<Category>, keyHash: KeyHash): (r: bool)
    ensures Untagged(nftData) ==> r
  {
    match nftData
    case None => true
    case Some(tags) => |tags| == 0 || CategoriesPass(tags, filters, keyHash)
  }

  /** Only the first tag with a given key counts. */
  lemma FirstValueUnique(tags: seq<Tag>, key: string, i: int, j: int)
    requires IsFirstWithKey(tags, key, i) && IsFirstWithKey(tags, key, j)
    ensures i == j
  {
  }

  /** One step of the category loop agrees with the policy for that category: an
      unconstrained category passes, a constrained one passes when its key is absent or its
      first matching value is allowed. */
  lemma CategoryStep(tags: seq<Tag>, c: Category, keyHash: KeyHash)
    ensures |c.allowed| == 0 ==> CategoryPasses(tags, c, keyHash)
    ensures var values := ValuesWithKey(tags, keyHash(c.name));
            |c.allowed| > 0 ==> (CategoryPasses(tags, c, keyHash) <==> (|values| == 0 || values[0] in c.allowed))
  {
  }

  /** `satisfies_filters` implements the declarative policy, in both directions. */
  lemma SatisfiesFiltersIff(nftData: Option<seq<Tag>>, filters: seq<Category>, keyHash: KeyHash)
    ensures SatisfiesFilters(nftData, filters, keyHash) <==> Accepts(nftData, filters, keyHash)
  {
  }

  /** With no constrained category (in particular with no categories at all) everything passes. */
  lemma NoConstraintAccepts(nftData: Option<seq<Tag>>, filters: seq<Category>, keyHash: KeyHash)
    requires forall k :: 0 <= k < |filters| ==> |filters[k].allowed| == 0
    ensures SatisfiesFilters(nftData, filters, keyHash)
  {
    SatisfiesFiltersIff(nftData, filters, keyHash);
  }

  /** A category whose digest tags nothing never rejects: adding it anywhere changes nothing. */
  lemma AbsentCategoryNeverRejects(tags: seq<Tag>, before: seq<Category>, c: Category, after: seq<Category>, keyHash: KeyHash)
    requires KeyAbsent(tags, keyHash(c.name))
    ensures SatisfiesFilters(Some(tags), before + [c] + after, keyHash) ==
            SatisfiesFilters(Some(tags), before + after, keyHash)
  {
    var all := before + [c] + after;
    var rest := before + after;
    SatisfiesFiltersIff(Some(tags), all, keyHash);
    SatisfiesFiltersIff(Some(tags), rest, keyHash);
    assert forall k :: 0 <= k < |all| ==> all[k] == c || all[k] in rest;
    assert forall k :: 0 <= k < |rest| ==> rest[k] in all;
    if |tags| > 0 && Accepts(Some(tags), rest, keyHash) {
      forall k | 0 <= k < |all|
        ensures CategoryPasses(tags, all[k], keyHash)
      {
        if all[k] != c {
          var m :| 0 <= m < |rest| && rest[m] == all[k];
        }
      }
    }
    if |tags| > 0 && Accepts(Some(tags), all, keyHash) {
      forall k | 0 <= k < |rest| ensures CategoryPasses(tags, rest[k], keyHash) {
        var m :| 0 <= m < |all| && all[m] == rest[k];
      }
    }
  }

  /** For a constrained category whose key is present, the first matching tag decides:
      its value outside the allowed list rejects, whatever later tags say. */
  lemma FirstTagDecides(tags: seq<Tag>, filters: seq<Category>, k: int, i: int, keyHash: KeyHash)
    requires 0 <= k < |filters| && |filters[k].allowed| > 0
    requires IsFirstWithKey(tags, keyHash(filters[k].name), i)
    ensures SatisfiesFilters(Some(tags), filters, keyHash) ==> tags[i].value in filters[k].allowed
  {
    SatisfiesFiltersIff(Some(tags), filters, keyHash);
    var c := filters[k];
    if SatisfiesFilters(Some(tags), filters, keyHash) {
      assert CategoryPasses(tags, c, keyHash);
      assert !KeyAbsent(tags, keyHash(c.name)) by { assert tags[i].key == keyHash(c.name); }
      var j :| IsFirstWithKey(tags, keyHash(c.name), j) && tags[j].value in c.allowed;
      FirstValueUnique(tags, keyHash(c.name), i, j);
    }
  }

  /** The dictionary order of the categories does not matter: two filter lists with the same
      categories admit the same tags. */
  lemma CategoryOrderIrrelevant(nftData: Option<seq<Tag>>, f: seq<Category>, g: seq<Category>, keyHash: KeyHash)
    requires forall c :: c in f <==> c in g
    ensures SatisfiesFilters(nftData, f, keyHash) == SatisfiesFilters(nftData, g, keyHash)
  {
    SatisfiesFiltersIff(nftData, f, keyHash);
    SatisfiesFiltersIff(nftData, g, keyHash);
    if !Untagged(nftData) {
      var tags := nftData.value;
      if Accepts(nftData, f, keyHash) {
        forall k | 0 <= k < |g| ensures CategoryPasses(tags, g[k], keyHash) {
          assert g[k] in f;
          var m :| 0 <= m < |f| && f[m] == g[k];
        }
      }
      if Accepts(nftData, g, keyHash) {
        forall k | 0 <= k < |f| ensures CategoryPasses(tags, f[k], keyHash) {
          assert f[k] in g;
          var m :| 0 <= m < |g| && g[m] == f[k];
        }
      }
    }
  }

  /** The single-filter scenarios of `test_satisfies_filters`, for any digest. */
  lemma SatisfiesFiltersScenarios(keyHash: KeyHash)
    ensures SatisfiesFilters(None, [Category("a", []), Category("b", [])], keyHash)
    ensures SatisfiesFilters(Some([Tag("a", "b")]), [], keyHash)
    ensures var tags := [Tag(keyHash("pair"), "0x123"), Tag("another", "0x1234"), Tag("another3", "0x12345")];
            && SatisfiesFilters(Some(tags), [Category("pair", ["0x123"])], keyHash)
            && !SatisfiesFilters(Some(tags), [Category("pair", ["0x1234"])], keyHash)
  {
  }

  /** The multi-filter scenarios of `test_satisfies_filters`, for any digest that keeps the two
      category names apart from each other and "timeframe" apart from the literal keys. */
  lemma MultiFilterScenarios(keyHash: KeyHash)
    requires keyHash("pair") != keyHash("timeframe")
    requires keyHash("timeframe") !in {"another2", "another3"}
    ensures var tags := [Tag(keyHash("pair"), "0x123"), Tag(keyHash("timeframe"), "0x1234"), Tag("another3", "0x12345")];
            && SatisfiesFilters(Some(tags), [Category("pair", ["0x123"]), Category("timeframe", ["0x1234"])], keyHash)
            && !SatisfiesFilters(Some(tags), [Category("pair", ["0x123"]), Category("timeframe", ["0x123"])], keyHash)
            && SatisfiesFilters(Some(tags), [Category("pair", ["0x123"]), Category("timeframe", ["0x123", "0x1234"])], keyHash)
    ensures var tags := [Tag(keyHash("pair"), "0x123"), Tag("another2", "0x1234"), Tag("another3", "0x12345")];
            SatisfiesFilters(Some(tags), [Category("pair", ["0x123"]), Category("timeframe", ["0x123"])], keyHash)
  {
    var tags := [Tag(keyHash("pair"), "0x123"), Tag(keyHash("timeframe"), "0x1234"), Tag("another3", "0x12345")];
    var filters := [Category("pair", ["0x123"]), Category("timeframe", ["0x123"])];
    assert IsFirstWithKey(tags, keyHash(filters[1].name), 1);
    FirstTagDecides(tags, filters, 1, 1, keyHash);
  }

  /* ---------------------------------------------------------------------------
     filter_by_owners and filter_contracts
     --------------------------------------------------------------------------- */

  /** `filter_by_owners`: the contracts whose NFT owner id is literally in `owners`. */
  function FilterByOwners(contracts: seq<RawContract>, owners: seq<string>): (r: seq<RawContract>)
    ensures |r| <= |contracts|
  {
    Seqs.Filter(contracts, (c: RawContract) => c.ownerId in owners)
  }

  /** The owner filter keeps, in order and with their multiplicities, exactly the contracts
      whose owner id is in the list. */
  lemma FilterByOwnersKeeps(contracts: seq<RawContract>, owners: seq<string>)
    ensures Seqs.IsSubsequence(FilterByOwners(contracts, owners), contracts)
    ensures forall c :: multiset(FilterByOwners(contracts, owners))[c] ==
              if c.ownerId in owners then multiset(contracts)[c] else 0
  {
    Seqs.FilterKeeps(contracts, (c: RawContract) => c.ownerId in owners);
  }

  /** Both stages of `filter_contracts` admit a contract. */
  predicate Admitted(c: RawContract, owners: seq<string>, filters: seq<Category>, keyHash: KeyHash) {
    c.ownerId in owners && SatisfiesFilters(c.nftData, filters, keyHash)
  }

  /** `filter_contracts` with owners and filters as explicit parameters, returning the
      `filtered` list. As written the source never reaches that list (see `FilterStep` in
      module Discovery); this is the evident intent. */
  function FilterContracts(contracts: seq<RawContract>, owners: seq<string>, filters: seq<Category>, keyHash: KeyHash): (r: seq<RawContract>)
    ensures |r| <= |contracts|
  {
    Seqs.Filter(FilterByOwners(contracts, owners), (c: RawContract) => SatisfiesFilters(c.nftData, filters, keyHash))
  }

  /** `filter_contracts` keeps, in order and with their multiplicities, exactly the contracts
      that pass both the owner and the tag filter. */
  lemma FilterContractsKeeps(contracts: seq<RawContract>, owners: seq<string>, filters: seq<Category>, keyHash: KeyHash)
    ensures Seqs.IsSubsequence(FilterContracts(contracts, owners, filters, keyHash), contracts)
    ensures forall c :: multiset(FilterContracts(contracts, owners, filters, keyHash))[c] ==
              if Admitted(c, owners, filters, keyHash) then multiset(contracts)[c] else 0
  {
    var owned := FilterByOwners(contracts, owners);
    var tagTest := (c: RawContract) => SatisfiesFilters(c.nftData, filters, keyHash);
    FilterByOwnersKeeps(contracts, owners);
    Seqs.FilterKeeps(owned, tagTest);
    Seqs.SubsequenceTransitive(Seqs.Filter(owned, tagTest), owned, contracts);
  }

  /** The two stages of `filter_contracts` are one filter on the conjunction: the result is
      exactly the admitted contracts, in input order. */
  lemma FilterContractsIsConjunction(contracts: seq<RawContract>, owners: seq<string>, filters: seq<Category>, keyHash: KeyHash)
    ensures FilterContracts(contracts, owners, filters, keyHash) ==
            Seqs.Filter(contracts, (c: RawContract) => Admitted(c, owners, filters, keyHash))
  {
    var byOwner := (c: RawContract) => c.ownerId in owners;
    var byTags := (c: RawContract) => SatisfiesFilters(c.nftData, filters, keyHash);
    var owned := FilterByOwners(contracts, owners);
    Seqs.FilterExtensional(contracts, (c: RawContract) => c.ownerId in owners, byOwner);
    Seqs.FilterExtensional(owned, (c: RawContract) => SatisfiesFilters(c.nftData, filters, keyHash), byTags);
    Seqs.FilterFusion(contracts, byOwner, byTags, (c: RawContract) => Admitted(c, owners, filters, keyHash));
  }
}
