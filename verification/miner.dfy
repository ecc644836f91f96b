/** The level-wise miner (`apriori_algorithm`): a first pass counts the
    1-itemsets, then each level generates candidates from the previous one,
    counts them over every row, and keeps those whose support reaches the
    threshold, until a level comes out empty. */
module Miner {
  import opened Itemsets
  import opened Counting
  import opened Candidates

  /** Support of an itemset seen in `count` of `n` rows, computed exactly
      (the program divides floats). */
  function Support(count: nat, n: nat): (r: real)
    requires n > 0
    ensures r * n as real == count as real
    ensures 0.0 <= r && (count <= n ==> r <= 1.0)
  {
    count as real / n as real
  }

  lemma SupportMonotone(a: nat, b: nat, n: nat)
    requires n > 0 && a >= b
    ensures Support(a, n) >= Support(b, n)
  {
    assert Support(a, n) - Support(b, n) == (a - b) as real / n as real;
  }

  /** A frequent itemset: ascending, non-empty, contained in some row, and
      with support at least `minSupp`. */
  predicate Frequent(ds: Dataset, minSupp: real, s: Itemset)
  {
    Ascending(s) && |s| >= 1 && |ds| > 0 && Count(ds, s) > 0 &&
    Support(Count(ds, s), |ds|) >= minSupp
  }

  /** What a finished run leaves behind: the frequency table holds the true
      row count of every itemset it has an entry for, the support map holds
      exactly the frequent itemsets, each with its support. */
  ghost predicate Mined(ds: Dataset, minSupp: real, large: map<Itemset, real>, counts: map<Itemset, nat>)
  {
    (forall s :: s in counts ==> counts[s] == Count(ds, s) && counts[s] >= 1) &&
    (forall s :: s in large <==> Frequent(ds, minSupp, s)) &&
    (forall s :: s in large ==> s in counts && |ds| > 0 && large[s] == Support(counts[s], |ds|))
  }

  /** Every ascending subset of a frequent itemset is frequent. */
  lemma FrequentSubset(ds: Dataset, minSupp: real, s: Itemset, t: Itemset)
    requires Frequent(ds, minSupp, s)
    requires Ascending(t) && |t| >= 1 && SubsetOf(t, s)
    ensures Frequent(ds, minSupp, t)
  {
    CountAntiMonotone(ds, t, s);
    SupportMonotone(Count(ds, t), Count(ds, s), |ds|);
  }

  lemma FrequentDrops(ds: Dataset, minSupp: real, s: Itemset)
    requires Frequent(ds, minSupp, s) && |s| >= 2
    ensures forall t :: 0 <= t < |s| ==> Frequent(ds, minSupp, DropAt(s, t))
  {
    forall t | 0 <= t < |s| ensures Frequent(ds, minSupp, DropAt(s, t)) {
      DropAtAscending(s, t);
      FrequentSubset(ds, minSupp, s, DropAt(s, t));
    }
  }

  /** When no itemset of size `k` is frequent, none larger is either. */
  lemma NoneLarger(ds: Dataset, minSupp: real, k: nat, s: Itemset)
    requires k >= 1 && Frequent(ds, minSupp, s) && |s| >= k
    ensures Frequent(ds, minSupp, s[..k])
  {
    var p := s[..k];
    assert Ascending(p);
    assert SubsetOf(p, s);
    FrequentSubset(ds, minSupp, s, p);
  }

  /** What the first pass has counted for `s` once it has seen the rows
      `ds[..r]` and the first `t` items of `row`. */
  ghost function ItemTally(ds: Dataset, r: nat, row: Transaction, t: nat, s: Itemset): nat
    requires r <= |ds| && t <= |row|
  {
    if |s| == 1 then Count(ds[..r], s) + (if s[0] in row[..t] then 1 else 0) else 0
  }

  lemma ItemTallyStep(ds: Dataset, r: nat, row: Transaction, t: nat)
    requires r <= |ds| && t < |row| && Distinct(row)
    ensures forall s :: ItemTally(ds, r, row, t + 1, s) == ItemTally(ds, r, row, t, s) + (if s == [row[t]] then 1 else 0)
  {
    assert row[..t + 1] == row[..t] + [row[t]];
    assert row[t] !in row[..t];
    forall s | |s| == 1 ensures s == [row[t]] <==> s[0] == row[t] {
      assert s == [s[0]];
    }
  }

  lemma ItemTallyRow(ds: Dataset, r: nat)
    requires r < |ds|
    ensures forall s :: ItemTally(ds, r, ds[r], |ds[r]|, s) == if |s| == 1 then Count(ds[..r + 1], s) else 0
  {
    assert ds[r][..|ds[r]|] == ds[r];
    forall s | |s| == 1 ensures Count(ds[..r + 1], s) == Count(ds[..r], s) + (if s[0] in ds[r] then 1 else 0) {
      CountPrefix(ds, r, s);
      ContainSingleton(ds[r], s);
    }
  }

  /** Lines 105-108: count every item of every row as a 1-itemset. */
  method FirstPass(ds: Dataset, table: FrequencyTable)
    requires DuplicateFree(ds)
    modifies table
    ensures forall s :: s in table.counts <==> s in old(table.counts) || (|s| == 1 && Count(ds, s) > 0)
    ensures forall s :: Get(table.counts, s) == Get(old(table.counts), s) + (if |s| == 1 then Count(ds, s) else 0)
  {
    ghost var c0 := table.counts;
    for r := 0 to |ds|
      invariant forall s :: s in table.counts <==> s in c0 || (|s| == 1 && Count(ds[..r], s) > 0)
      invariant forall s :: Get(table.counts, s) == Get(c0, s) + (if |s| == 1 then Count(ds[..r], s) else 0)
    {
      var transaction := ds[r];
      assert transaction in ds;
      for t := 0 to |transaction|
        invariant forall s :: s in table.counts <==> s in c0 || ItemTally(ds, r, transaction, t, s) > 0
        invariant forall s :: Get(table.counts, s) == Get(c0, s) + ItemTally(ds, r, transaction, t, s)
      {
        var item := transaction[t];
        ItemTallyStep(ds, r, transaction, t);
        table.AddItemsetFreq([item]);
      }
      ItemTallyRow(ds, r);
    }
    assert ds[..|ds|] == ds;
  }

  /** Lines 109-115: keep the counted itemsets whose support reaches
      `minSupp`, record their support, and sort them. */
  method SelectL1(counts: map<Itemset, nat>, n: nat, minSupp: real)
    returns (l1: seq<Itemset>, large: map<Itemset, real>)
    requires n > 0 || counts == map[]
    ensures forall s :: s in l1 <==> s in counts && n > 0 && Support(counts[s], n) >= minSupp
    ensures forall s :: s in large <==> s in l1
    ensures forall s :: s in large ==> s in counts && n > 0 && large[s] == Support(counts[s], n)
    ensures SortedStrict(l1)
  {
    l1, large := [], map[];
    var keys := counts.Keys;
    while keys != {}
      invariant keys <= counts.Keys
      invariant forall s :: s in l1 <==> s in counts && s !in keys && n > 0 && Support(counts[s], n) >= minSupp
      invariant forall s :: s in large <==> s in l1
      invariant forall s :: s in large ==> s in counts && n > 0 && large[s] == Support(counts[s], n)
      invariant Distinct(l1)
      decreases keys
    {
      var itemset :| itemset in keys;
      var supp := Support(counts[itemset], n);
      if supp >= minSupp {
        l1 := l1 + [itemset];
        large := large[itemset := supp];
      }
      keys := keys - {itemset};
    }
    SortSorted(l1);
    l1 := Sort(l1);
  }

  /** What the candidate pass has counted for `s` once it has seen the rows
      `ds[..r]` and, in `row`, the first `j` candidates. */
  ghost function CandidateTally(ds: Dataset, candidates: seq<Itemset>, r: nat, row: Transaction, j: nat, s: Itemset): nat
    requires r <= |ds| && j <= |candidates|
  {
    if s in candidates then
      Count(ds[..r], s) + (if s in candidates[..j] && ContainSublist(row, s) then 1 else 0)
    else 0
  }

  lemma CandidateTallyStep(ds: Dataset, candidates: seq<Itemset>, r: nat, row: Transaction, j: nat)
    requires r <= |ds| && j < |candidates| && Distinct(candidates)
    ensures forall s ::
              CandidateTally(ds, candidates, r, row, j + 1, s) ==
              CandidateTally(ds, candidates, r, row, j, s) + (if s == candidates[j] && ContainSublist(row, s) then 1 else 0)
  {
    assert candidates[..j + 1] == candidates[..j] + [candidates[j]];
    assert candidates[j] !in candidates[..j];
  }

  lemma CandidateTallyRow(ds: Dataset, candidates: seq<Itemset>, r: nat)
    requires r < |ds|
    ensures forall s ::
              CandidateTally(ds, candidates, r, ds[r], |candidates|, s) ==
              if s in candidates then Count(ds[..r + 1], s) else 0
  {
    assert candidates[..|candidates|] == candidates;
    forall s ensures Count(ds[..r + 1], s) == Count(ds[..r], s) + (if ContainSublist(ds[r], s) then 1 else 0) {
      CountPrefix(ds, r, s);
    }
  }

  /** Lines 121-124: for every row and every candidate contained in it, one
      more occurrence of the candidate. */
  method CountCandidates(ds: Dataset, candidates: seq<Itemset>, table: FrequencyTable)
    requires Distinct(candidates)
    modifies table
    ensures forall s :: s in table.counts <==> s in old(table.counts) || (s in candidates && Count(ds, s) > 0)
    ensures forall s :: Get(table.counts, s) == Get(old(table.counts), s) + (if s in candidates then Count(ds, s) else 0)
  {
    ghost var c0 := table.counts;
    for r := 0 to |ds|
      invariant forall s :: s in table.counts <==> s in c0 || (s in candidates && Count(ds[..r], s) > 0)
      invariant forall s :: Get(table.counts, s) == Get(c0, s) + (if s in candidates then Count(ds[..r], s) else 0)
    {
      var row := ds[r];
      for j := 0 to |candidates|
        invariant forall s :: s in table.counts <==> s in c0 || CandidateTally(ds, candidates, r, row, j, s) > 0
        invariant forall s :: Get(table.counts, s) == Get(c0, s) + CandidateTally(ds, candidates, r, row, j, s)
      {
        CandidateTallyStep(ds, candidates, r, row, j);
        if ContainSublist(row, candidates[j]) {
          table.AddItemsetFreq(candidates[j]);
        }
      }
      CandidateTallyRow(ds, candidates, r);
    }
    assert ds[..|ds|] == ds;
  }

  /** Lines 125-131: keep, in candidate order, the counted candidates whose
      support reaches `minSupp`, and record their support. */
  method SelectLarge(candidates: seq<Itemset>, counts: map<Itemset, nat>, n: nat, minSupp: real,
                     large0: map<Itemset, real>)
    returns (currL: seq<Itemset>, large: map<Itemset, real>)
    requires n > 0
    ensures forall s :: s in currL <==> s in candidates && s in counts && Support(counts[s], n) >= minSupp
    ensures forall s :: s in large <==> s in large0 || s in currL
    ensures forall s :: s in large ==> large[s] == if s in currL then Support(counts[s], n) else large0[s]
    ensures SortedStrict(candidates) ==> SortedStrict(currL)
  {
    currL, large := [], large0;
    for k := 0 to |candidates|
      invariant forall s :: s in currL <==> s in candidates[..k] && s in counts && Support(counts[s], n) >= minSupp
      invariant forall s :: s in large <==> s in large0 || s in currL
      invariant forall s :: s in large ==> large[s] == if s in currL then Support(counts[s], n) else large0[s]
      invariant SortedStrict(candidates) ==> SortedStrict(currL)
    {
      var itemset := candidates[k];
      assert candidates[..k + 1] == candidates[..k] + [itemset];
      if itemset in counts {
        var supp := Support(counts[itemset], n);
        if supp >= minSupp {
          if SortedStrict(candidates) {
            forall s | s in currL ensures LexLess(s, itemset) {
              var i :| 0 <= i < k && candidates[i] == s;
            }
            SortedConcat(currL, [itemset]);
          }
          currL := currL + [itemset];
          large := large[itemset := supp];
        }
      }
    }
    assert candidates[..|candidates|] == candidates;
  }

  /** The state of the miner when it starts level `k + 1`: `prevL` holds,
      sorted, exactly the frequent `k`-itemsets; `large` holds every frequent
      itemset of at most `k` items with its support; the frequency table holds
      true row counts of itemsets of at most `k` items. */
  ghost predicate LevelInv(ds: Dataset, minSupp: real, k: nat, prevL: seq<Itemset>,
                           large: map<Itemset, real>, counts: map<Itemset, nat>)
  {
    LevelShape(ds, k, prevL) && LevelHolds(ds, minSupp, k, prevL) &&
    LargeHolds(ds, minSupp, k, large, counts) && CountsHold(ds, k, counts)
  }

  ghost predicate LevelShape(ds: Dataset, k: nat, prevL: seq<Itemset>)
  {
    1 <= k && (prevL != [] ==> k <= MaxRowLength(ds)) &&
    IsLevel(prevL) && (prevL != [] ==> |prevL[0]| == k)
  }

  ghost predicate LevelHolds(ds: Dataset, minSupp: real, k: nat, prevL: seq<Itemset>)
  {
    forall s :: s in prevL <==> Frequent(ds, minSupp, s) && |s| == k
  }

  ghost predicate LargeHolds(ds: Dataset, minSupp: real, k: nat, large: map<Itemset, real>, counts: map<Itemset, nat>)
  {
    (forall s :: s in large <==> Frequent(ds, minSupp, s) && |s| <= k) &&
    (forall s :: s in large ==> s in counts && |ds| > 0 && large[s] == Support(counts[s], |ds|))
  }

  ghost predicate CountsHold(ds: Dataset, k: nat, counts: map<Itemset, nat>)
  {
    forall s :: s in counts ==> counts[s] == Count(ds, s) && counts[s] >= 1 && 1 <= |s| <= k
  }

  /** `apriori_algorithm`: mines every frequent itemset. Afterwards the
      frequency table holds the true row count of each itemset it has an
      entry for, and the returned map holds exactly the frequent itemsets,
      each with its support. */
  method AprioriAlgorithm(ds: Dataset, minSupp: real, table: FrequencyTable)
    returns (large: map<Itemset, real>)
    requires DuplicateFree(ds) && table.counts == map[]
    modifies table
    ensures Mined(ds, minSupp, large, table.counts)
  {
    var transactionNum := |ds|;
    FirstPass(ds, table);
    var l1;
    l1, large := SelectL1(table.counts, transactionNum, minSupp);
    FirstLevel(ds, minSupp, l1, large, table.counts);
    var prevL := l1;
    ghost var k := 1;
    while prevL != []
      invariant LevelInv(ds, minSupp, k, prevL, large, table.counts)
      decreases MaxRowLength(ds) + 1 - k
    {
      assert prevL[0] in prevL;
      var candidates := AprioriGen(prevL);
      SortedDistinct(candidates);
      ghost var before := table.counts;
      CountCandidates(ds, candidates, table);
      var currL;
      ghost var large0 := large;
      currL, large := SelectLarge(candidates, table.counts, transactionNum, minSupp, large);
      NextLevel(ds, minSupp, k, prevL, candidates, before, table.counts, currL, large0, large);
      prevL := currL;
      k := k + 1;
    }
    LastLevel(ds, minSupp, k, large, table.counts);
  }

  /** On entry to the loop the invariant holds at level 1. */
  lemma FirstLevel(ds: Dataset, minSupp: real, l1: seq<Itemset>, large: map<Itemset, real>,
                   counts: map<Itemset, nat>)
    requires forall s :: s in counts <==> |s| == 1 && Count(ds, s) > 0
    requires forall s :: Get(counts, s) == (if |s| == 1 then Count(ds, s) else 0)
    requires forall s :: s in l1 <==> s in counts && |ds| > 0 && Support(counts[s], |ds|) >= minSupp
    requires forall s :: s in large <==> s in l1
    requires forall s :: s in large ==> s in counts && |ds| > 0 && large[s] == Support(counts[s], |ds|)
    requires SortedStrict(l1)
    ensures LevelInv(ds, minSupp, 1, l1, large, counts)
  {
    forall s | s in counts ensures counts[s] == Count(ds, s) {
      assert Get(counts, s) == counts[s];
    }
    assert CountsHold(ds, 1, counts);
    assert LevelHolds(ds, minSupp, 1, l1);
    assert LargeHolds(ds, minSupp, 1, large, counts);
    if l1 != [] {
      assert l1[0] in l1;
      CountedFitsInRow(ds, l1[0]);
    }
    assert forall s :: s in l1 ==> |s| == 1;
    SingletonLevel(l1);
  }

  lemma SingletonLevel(l1: seq<Itemset>)
    requires SortedStrict(l1) && forall s :: s in l1 ==> |s| == 1
    ensures IsLevel(l1) && (l1 != [] ==> |l1[0]| == 1)
  {
    forall i | 0 <= i < |l1| ensures |l1[i]| == 1 && Ascending(l1[i]) {
      assert l1[i] in l1;
    }
  }

  /** When the loop stops, no frequent itemset has `k` items or more, so
      `large` holds every frequent itemset. */
  lemma LastLevel(ds: Dataset, minSupp: real, k: nat, large: map<Itemset, real>, counts: map<Itemset, nat>)
    requires LevelInv(ds, minSupp, k, [], large, counts)
    ensures Mined(ds, minSupp, large, counts)
  {
    forall s | Frequent(ds, minSupp, s) ensures |s| < k {
      if |s| >= k { NoneLarger(ds, minSupp, k, s); }
    }
  }

  /** Counting the candidates of level `k + 1` leaves every entry of at most
      `k` items alone and gives each counted candidate its row count. */
  lemma CountsAfter(ds: Dataset, k: nat, candidates: seq<Itemset>, before: map<Itemset, nat>,
                    counts: map<Itemset, nat>)
    requires CountsHold(ds, k, before)
    requires forall c :: c in candidates ==> |c| == k + 1
    requires forall s :: s in counts <==> s in before || (s in candidates && Count(ds, s) > 0)
    requires forall s :: Get(counts, s) == Get(before, s) + (if s in candidates then Count(ds, s) else 0)
    ensures CountsHold(ds, k + 1, counts)
    ensures forall s :: s in before ==> s in counts && counts[s] == before[s]
    ensures forall c :: c in candidates ==> (c in counts <==> Count(ds, c) > 0)
  {
    forall s | s in counts ensures counts[s] == Count(ds, s) && counts[s] >= 1 && 1 <= |s| <= k + 1 {
      assert Get(counts, s) == counts[s];
      if s in candidates {
        assert s !in before;
      } else {
        assert Get(before, s) == before[s];
      }
    }
    forall s | s in before ensures s in counts && counts[s] == before[s] {
      assert s !in candidates;
      assert Get(counts, s) == Get(before, s);
    }
  }

  /** The candidates of level `k + 1` that pass the support filter are
      exactly the frequent `(k + 1)`-itemsets. */
  lemma LevelMembers(ds: Dataset, minSupp: real, k: nat, prevL: seq<Itemset>, candidates: seq<Itemset>,
                     counts: map<Itemset, nat>, currL: seq<Itemset>)
    requires k >= 1 && |ds| > 0
    requires LevelHolds(ds, minSupp, k, prevL)
    requires IsLevel(candidates) && forall c :: c in candidates ==> |c| == k + 1
    requires forall c :: |c| == k + 1 && Ascending(c) ==> (c in candidates <==> AllDropsIn(c, prevL))
    requires forall c :: c in candidates ==> (c in counts <==> Count(ds, c) > 0)
    requires forall s :: s in counts ==> counts[s] == Count(ds, s)
    requires forall s :: s in currL <==> s in candidates && s in counts && Support(counts[s], |ds|) >= minSupp
    ensures LevelHolds(ds, minSupp, k + 1, currL)
  {
    forall s ensures s in currL <==> Frequent(ds, minSupp, s) && |s| == k + 1 {
      if Frequent(ds, minSupp, s) && |s| == k + 1 {
        FrequentDrops(ds, minSupp, s);
        forall t | 0 <= t < |s| ensures DropAt(s, t) in prevL {
          DropAtAscending(s, t);
        }
        assert s in candidates;
      }
    }
  }

  /** The next level is sorted, of `k + 1` items per itemset, and no
      longer than the longest row allows. */
  lemma ShapeAfter(ds: Dataset, minSupp: real, k: nat, candidates: seq<Itemset>, currL: seq<Itemset>)
    requires k >= 1 && IsLevel(candidates) && forall c :: c in candidates ==> |c| == k + 1
    requires forall s :: s in currL ==> s in candidates
    requires SortedStrict(currL) && LevelHolds(ds, minSupp, k + 1, currL)
    ensures LevelShape(ds, k + 1, currL)
  {
    if currL != [] {
      assert currL[0] in currL;
      CountedFitsInRow(ds, currL[0]);
    }
    assert forall i :: 0 <= i < |currL| ==> currL[i] in currL;
  }

  /** The support map after level `k + 1` holds every frequent itemset of
      at most `k + 1` items, each with its support. */
  lemma LargeAfter(ds: Dataset, minSupp: real, k: nat, before: map<Itemset, nat>, counts: map<Itemset, nat>,
                   currL: seq<Itemset>, large0: map<Itemset, real>, large: map<Itemset, real>)
    requires LargeHolds(ds, minSupp, k, large0, before) && LevelHolds(ds, minSupp, k + 1, currL)
    requires forall s :: s in before ==> s in counts && counts[s] == before[s]
    requires forall s :: s in currL ==> s in counts
    requires forall s :: s in large <==> s in large0 || s in currL
    requires |ds| > 0
    requires forall s :: s in large ==> large[s] == if s in currL then Support(counts[s], |ds|) else large0[s]
    ensures LargeHolds(ds, minSupp, k + 1, large, counts)
  {
  }

  /** One turn of the loop keeps its invariant. */
  lemma NextLevel(ds: Dataset, minSupp: real, k: nat, prevL: seq<Itemset>, candidates: seq<Itemset>,
                  before: map<Itemset, nat>, counts: map<Itemset, nat>, currL: seq<Itemset>,
                  large0: map<Itemset, real>, large: map<Itemset, real>)
    requires LevelInv(ds, minSupp, k, prevL, large0, before) && prevL != []
    requires IsLevel(candidates)
    requires forall c :: c in candidates ==> |c| == k + 1
    requires forall c :: |c| == k + 1 && Ascending(c) ==> (c in candidates <==> AllDropsIn(c, prevL))
    requires forall s :: s in counts <==> s in before || (s in candidates && Count(ds, s) > 0)
    requires forall s :: Get(counts, s) == Get(before, s) + (if s in candidates then Count(ds, s) else 0)
    requires |ds| > 0
    requires forall s :: s in currL <==> s in candidates && s in counts && Support(counts[s], |ds|) >= minSupp
    requires forall s :: s in large <==> s in large0 || s in currL
    requires forall s :: s in large ==> large[s] == if s in currL then Support(counts[s], |ds|) else large0[s]
    requires SortedStrict(currL)
    ensures LevelInv(ds, minSupp, k + 1, currL, large, counts)
  {
    CountsAfter(ds, k, candidates, before, counts);
    LevelMembers(ds, minSupp, k, prevL, candidates, counts, currL);
    ShapeAfter(ds, minSupp, k, candidates, currL);
    LargeAfter(ds, minSupp, k, before, counts, currL, large0, large);
  }

  /** Closure: every subset of a mined itemset with one item dropped has
      also been mined. */
  lemma MinedClosed(ds: Dataset, minSupp: real, large: map<Itemset, real>, counts: map<Itemset, nat>,
                    s: Itemset, t: nat)
    requires Mined(ds, minSupp, large, counts)
    requires s in large && |s| >= 2 && t < |s|
    ensures DropAt(s, t) in large && Count(ds, DropAt(s, t)) >= Count(ds, s)
  {
    DropAtAscending(s, t);
    FrequentSubset(ds, minSupp, s, DropAt(s, t));
    CountAntiMonotone(ds, DropAt(s, t), s);
  }

  /** The support filter: every mined itemset has support at least
      `minSupp`, and its recorded support is its row count over the number
      of rows. */
  lemma MinedSupport(ds: Dataset, minSupp: real, large: map<Itemset, real>, counts: map<Itemset, nat>,
                     s: Itemset)
    requires Mined(ds, minSupp, large, counts) && s in large
    ensures |ds| > 0 && large[s] == Support(Count(ds, s), |ds|) && large[s] >= minSupp
  {
  }
}
