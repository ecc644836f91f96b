/** Support counting: the subset test on a transaction, the number of
    transactions that contain an itemset, and the frequency table that the
    miner fills in place. */
module Counting {
  import opened Itemsets

  /** A transaction is a row of items; the dataset is the list of rows. */
  type Transaction = seq<Item>
  type Dataset = seq<Transaction>

  /** The rows the CSV reader produces: no item twice in one row. */
  predicate DuplicateFree(ds: Dataset)
  {
    forall r :: r in ds ==> Distinct(r)
  }

  /** `contain_sublist`: the set of `lst + sub` is the set of `lst`. */
  function ContainSublist(lst: Transaction, sub: Itemset): (r: bool)
    ensures r <==> SubsetOf(sub, lst)
  {
    SetOfConcat(lst, sub);
    Elems(lst + sub) == Elems(lst)
  }

  lemma SetOfConcat(lst: Transaction, sub: Itemset)
    ensures Elems(lst + sub) == Elems(lst) <==> SubsetOf(sub, lst)
  {
    if SubsetOf(sub, lst) {
      forall x ensures x in Elems(lst + sub) <==> x in Elems(lst) {
        if x in lst + sub { assert x in lst || x in sub; }
      }
    }
    if Elems(lst + sub) == Elems(lst) {
      forall x | x in sub ensures x in lst {
        assert x in lst + sub;
        assert x in Elems(lst + sub);
      }
    }
  }

  /** A 1-itemset is contained in a row exactly when its item is. */
  lemma ContainSingleton(row: Transaction, s: Itemset)
    requires |s| == 1
    ensures ContainSublist(row, s) <==> s[0] in row
  {
    var item := s[0];
    assert item in s;
    if item in row {
      forall x | x in s ensures x in row { assert s == [item]; }
      assert SubsetOf(s, row);
    }
  }

  /** The number of rows of `ds` that contain every item of `s`. */
  function Count(ds: Dataset, s: Itemset): (n: nat)
    ensures n <= |ds|
  {
    if ds == [] then 0
    else Count(ds[..|ds| - 1], s) + (if ContainSublist(ds[|ds| - 1], s) then 1 else 0)
  }

  /** Counting one more row. */
  lemma CountPrefix(ds: Dataset, r: nat, s: Itemset)
    requires r < |ds|
    ensures Count(ds[..r + 1], s) == Count(ds[..r], s) + (if ContainSublist(ds[r], s) then 1 else 0)
  {
    assert ds[..r + 1][..r] == ds[..r];
  }

  /** Every row that contains `s` contains each subset of `s`, so a subset
      is counted at least as often (the Apriori property). */
  lemma {:induction false} CountAntiMonotone(ds: Dataset, t: Itemset, s: Itemset)
    requires SubsetOf(t, s)
    ensures Count(ds, t) >= Count(ds, s)
    decreases |ds|
  {
    if ds != [] {
      CountAntiMonotone(ds[..|ds| - 1], t, s);
    }
  }

  /** The length of the longest row. */
  function MaxRowLength(ds: Dataset): (m: nat)
    ensures forall r :: r in ds ==> |r| <= m
  {
    if ds == [] then 0
    else
      var m := MaxRowLength(ds[..|ds| - 1]);
      assert ds == ds[..|ds| - 1] + [ds[|ds| - 1]];
      if |ds[|ds| - 1]| > m then |ds[|ds| - 1]| else m
  }

  /** An ascending itemset inside a row is no longer than the row. */
  lemma {:induction false} AscendingInsideRow(row: Transaction, s: Itemset)
    requires Ascending(s) && SubsetOf(s, row)
    ensures |s| <= |row|
    decreases |s|
  {
    if |s| > 0 {
      var rest := RemoveFirst(row, s[0]);
      RemoveFirstMultiset(row, s[0]);
      AscendingTail(s);
      forall x | x in s[1..] ensures x in rest {
        var k :| 0 <= k < |s[1..]| && s[1..][k] == x;
        assert s[k + 1] == x && x in s;
        assert x != s[0];
        assert x in row;
        assert x in multiset(row);
        assert multiset(rest)[x] == multiset(row)[x];
      }
      AscendingInsideRow(rest, s[1..]);
    }
  }

  /** An ascending itemset found in some row is no longer than the longest
      row: this bounds the number of levels of the miner. */
  lemma {:induction false} CountedFitsInRow(ds: Dataset, s: Itemset)
    requires Ascending(s) && Count(ds, s) > 0
    ensures |s| <= MaxRowLength(ds)
    decreases |ds|
  {
    var last := ds[|ds| - 1];
    if ContainSublist(last, s) {
      AscendingInsideRow(last, s);
      assert last in ds;
    } else {
      CountedFitsInRow(ds[..|ds| - 1], s);
      assert forall r :: r in ds[..|ds| - 1] ==> r in ds;
    }
  }

  /** The value stored for `s`, or 0 when `s` has no entry. */
  function Get(m: map<Itemset, nat>, s: Itemset): nat
  {
    if s in m then m[s] else 0
  }

  /** The `itemset_freq` dictionary, updated in place by the miner. */
  class FrequencyTable {
    var counts: map<Itemset, nat>

    constructor ()
      ensures counts == map[]
    {
      counts := map[];
    }

    /** `add_itemset_freq`: one more occurrence of `itemset`; a new entry
        starts at 1, every other entry is left as it was. */
    method AddItemsetFreq(itemset: Itemset)
      modifies this
      ensures counts == old(counts)[itemset := Get(old(counts), itemset) + 1]
      ensures counts.Keys == old(counts).Keys + {itemset}
      ensures forall s :: Get(counts, s) == Get(old(counts), s) + (if s == itemset then 1 else 0)
    {
      if itemset in counts {
        counts := counts[itemset := counts[itemset] + 1];
      } else {
        counts := counts[itemset := 1];
      }
    }
  }
}
