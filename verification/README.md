# Apriori frequent-itemset mining and association rules, in Dafny

This project models the core of a small Apriori implementation (`main.py`).
The program reads a table of transactions. It mines every itemset whose
support (the fraction of rows that contain all its items) reaches a minimum
support. From those frequent itemsets it then derives every association rule
`A => I - A` whose confidence (`freq(I) / freq(A)`) reaches a minimum
confidence.

The model follows the program's own structure:

- `wrappers.dfy`: `Option` and `Result`.
- `itemsets.dfy`: items, itemsets (strictly ascending sequences), Python's
  tuple order (`LexLess`), `list.remove` (`RemoveFirst`) and `list.sort`
  (`Sort`), with their properties.
- `counting.dfy`: `contain_sublist`, the number of rows that contain an
  itemset (`Count`), and the `itemset_freq` dictionary. The dictionary is a
  class whose map field `add_itemset_freq` updates in place.
- `candidates.dfy`: `check_and_join` as a function. `apriori_gen` is a method:
  a join loop with its early `break`, a loop that collects the candidates to
  reject, and a loop that removes them with `list.remove`. Each loop is proved
  against a recursive specification function.
- `miner.dfy`: `apriori_algorithm`. It is split into one method per loop of
  the source: the first pass, the 1-itemset filter and sort, candidate
  counting, and the support filter. The level loop carries an invariant
  (`LevelInv`) and terminates because no counted itemset is longer than the
  longest row.
- `rules.dfy`: `itertools.combinations` as a function, and
  `build_association_rules` as three nested loops over a `map` of rules. It
  returns a `Result` whose error cases are the `KeyError` and
  `ZeroDivisionError` the Python code can raise.

The main results:

- `AprioriGen` returns exactly the ascending `(k+1)`-itemsets whose
  one-item-smaller subsets are all in the previous level. It returns them
  sorted and duplicate-free. The early `break` in the join loses no pair on a
  sorted level.
- `AprioriAlgorithm` leaves the true row count in every entry of the frequency
  table. It returns exactly the frequent itemsets, each with its support.
- `BuildAssociationRules` fails exactly when some lookup it makes is missing
  or zero. It never fails on the miner's output (`MinedCovered`). Its rules
  are exactly those of enough confidence. Each rule has confidence at most 1,
  a non-empty consequent and the support of its itemset (`RulesExact`).

## Model

| member | source | states |
|---|---|---|
| `Itemsets.DropAtAscending` | main.py:69-72 | removing one position from an ascending itemset leaves an ascending subset of it |
| `Itemsets.RemoveFirst` | main.py:71 | `list.remove(x)` on a list holding `x` gives a list one element shorter; `RemoveFirstMultiset` shows the element removed is one occurrence of `x` |
| `Itemsets.RemoveFirstAscending` | main.py:70-71 | on an ascending tuple, `list.remove` of its `t`-th item drops exactly position `t` |
| `Itemsets.RemoveFirstMultiset` | main.py:76-77 | `list.remove(x)` on a list holding `x` removes one occurrence of `x` and nothing else |
| `Itemsets.LexLess` | main.py:115 | Python's tuple `<`: a proper prefix is below the longer tuple, and no tuple is below itself; `LexTransitive` and `LexTotal` make it the strict total order `l1.sort()` sorts by |
| `Itemsets.LexTransitive` | main.py:115 | Python's tuple order is transitive |
| `Itemsets.LexTotal` | main.py:115 | Python's tuple order is total: of two distinct tuples one is below the other |
| `Itemsets.LexLastItem` | main.py:39 | two tuples with the same prefix compare like their last items |
| `Itemsets.SortedUnique` | main.py:76-77 | two strictly sorted lists with the same elements are equal, which makes the removal loop's result unique |
| `Itemsets.Sort` | main.py:115 | `l1.sort()` returns a permutation of its input |
| `Itemsets.SortSorted` | main.py:115 | sorting a duplicate-free list gives a strictly ascending list with the same members |
| `Counting.ContainSublist` | main.py:80-81 | `set(lst + sub) == set(lst)` holds exactly when every item of `sub` occurs in `lst` |
| `Counting.ContainSingleton` | main.py:105-107 | a 1-itemset is contained in a row exactly when its item is in the row |
| `Counting.CountPrefix` | main.py:121-124 | one more row adds one to the count of each itemset it contains and nothing to the others |
| `Counting.CountAntiMonotone` | main.py:121-124 | a subset is contained in at least as many rows as its superset |
| `Counting.CountedFitsInRow` | main.py:118-132 | an ascending itemset contained in some row is no longer than the longest row, which bounds the number of passes |
| `Counting.FrequencyTable.constructor` | main.py:173 | the frequency table starts empty |
| `Counting.FrequencyTable.AddItemsetFreq` | main.py:83-87 | the entry for the itemset becomes its old value plus one, or 1 when it was absent, and every other entry is unchanged |
| `Candidates.CheckAndJoin` | main.py:38-44 | the join succeeds exactly when the last item of `p` is below that of `q` and the two agree on the first `len(p) - 1` items (a `q` too short for the slice never joins); the result is `p` extended by the last item of `q`, one item longer |
| `Candidates.JoinAscending` | main.py:38-44 | the join of an ascending itemset is ascending |
| `Candidates.JoinOfDrops` | main.py:38-44 | every ascending itemset of two or more items is the join of the subsets missing its last and its second-to-last item |
| `Candidates.JoinParents` | main.py:38-44 | two same-size tuples that join are exactly those two subsets of the result |
| `Candidates.JoinOrdered` | main.py:39 | for same-size tuples in tuple order, the join succeeds exactly when they share all but their last item |
| `Candidates.AllJoinMembers` | main.py:58-62 | the all-pairs join holds exactly the joins of pairs `i < j` |
| `Candidates.BreakJoinSound` | main.py:58-64 | everything the join loop with `break` appends is the join of a pair `i < j` |
| `Candidates.NoJoinAfterGap` | main.py:63-64 | on a sorted level, once `prev_l[i]` fails to join with `prev_l[j]` it joins with no later itemset |
| `Candidates.LevelJoinRuns` | main.py:58-64 | on a sorted level the itemsets that `prev_l[i]` joins with form one unbroken run |
| `Candidates.BreakJoinIsAllJoin` | main.py:58-64 | when join partners form runs, as on a sorted level, the `break` loses no pair: the join loop's output equals the all-pairs join |
| `Candidates.AllJoinSorted` | main.py:58-64 | on a sorted level the join output is strictly sorted |
| `Candidates.JoinComplete` | main.py:56-64 | every ascending `(k+1)`-itemset whose one-item-smaller subsets are all in the level is produced by the join |
| `Candidates.Survives` | main.py:69-73 | the prune test: removing each item of the candidate with `list.remove` leaves a tuple of the level. `SurvivesAscending` shows that on an ascending candidate this is every one-position drop lying in the level |
| `Candidates.SurvivesAscending` | main.py:69-73 | for an ascending candidate, passing the `list.remove` subset test is the same as every one-position drop being in the level |
| `Candidates.KeptMembers` | main.py:66-77 | the pruned list holds exactly the candidates all of whose one-item-smaller subsets are in the level |
| `Candidates.KeptRejectedSplit` | main.py:66-77 | kept and rejected candidates together are the candidates, as a multiset |
| `Candidates.KeptSorted` | main.py:76-77 | pruning a strictly sorted list keeps it strictly sorted |
| `Candidates.JoinStep` | main.py:56-64 | the nested join loop with `break` computes the join specification |
| `Candidates.JoinRow` | main.py:59-64 | one pass of the inner join loop appends the joins of `prev_l[i]` up to the first pair that does not join |
| `Candidates.CollectRejected` | main.py:67-75 | the collection loop gathers, in order, each candidate that has a missing subset |
| `Candidates.SubsetMissing` | main.py:69-75 | the inner loop finds a missing subset exactly when the candidate does not survive the prune test |
| `Candidates.RemoveEach` | main.py:76-77 | removing each collected itemset once leaves the multiset difference, and keeps a strictly sorted list strictly sorted |
| `Candidates.PruneStep` | main.py:66-77 | removing the rejected candidates one `list.remove` at a time leaves the kept candidates; on a sorted list, in order |
| `Candidates.AprioriGen` | main.py:46-78 | every candidate is a join of two itemsets of the level and survives the prune. On a sorted level the result is a sorted level one item larger, holding exactly the ascending itemsets whose subsets are all in the level |
| `Miner.Support` | main.py:111 | the support times the number of rows is the count, and it lies in `[0, 1]` when the count is at most the number of rows |
| `Miner.SupportMonotone` | main.py:111 | a larger count has at least the support of a smaller one |
| `Miner.FrequentSubset` | main.py:127-131 | every non-empty ascending subset of a frequent itemset is frequent |
| `Miner.FrequentDrops` | main.py:118-131 | dropping any one item from a frequent itemset of two or more items leaves a frequent itemset |
| `Miner.NoneLarger` | main.py:118 | the prefix of size `k` of a frequent itemset is frequent, so an empty level `k` means no larger frequent itemset exists |
| `Miner.FirstPass` | main.py:105-108 | after the first pass every 1-itemset has gained its row count, and the table's new keys are the 1-itemsets seen in some row |
| `Miner.SelectL1` | main.py:109-115 | `l1` holds, sorted, exactly the counted itemsets whose support reaches the minimum, and the support map records their support |
| `Miner.CountCandidates` | main.py:121-124 | every candidate gains its row count, other entries are unchanged, and the new keys are the candidates contained in some row |
| `Miner.SelectLarge` | main.py:125-131 | the new level holds, in candidate order, exactly the counted candidates whose support reaches the minimum, and the support map records their support |
| `Miner.AprioriAlgorithm` | main.py:101-141 | the table holds the true row count of every itemset it has an entry for, and the returned map holds exactly the frequent itemsets, each with its support |
| `Miner.FirstLevel` | main.py:105-117 | on entry to the level loop, `l1` is the sorted list of frequent 1-itemsets |
| `Miner.SingletonLevel` | main.py:115 | a strictly sorted list of 1-itemsets is a level |
| `Miner.CountsAfter` | main.py:121-124 | counting one level's candidates gives each its true count and leaves the smaller entries alone |
| `Miner.LevelMembers` | main.py:119-131 | the candidates that pass the support filter are exactly the frequent itemsets one item larger |
| `Miner.ShapeAfter` | main.py:125-132 | the next level is sorted, one item larger, and no longer than the longest row |
| `Miner.NextLevel` | main.py:118-132 | one pass of the loop keeps the level invariant with `k` one larger |
| `Miner.LastLevel` | main.py:118 | when the loop stops, the support map holds every frequent itemset |
| `Miner.MinedClosed` | main.py:127-131 | the mined itemsets are closed under dropping an item, and a dropped subset is counted at least as often |
| `Miner.MinedSupport` | main.py:127-131 | every mined itemset's support is its row count over the number of rows and is at least the minimum support |
| `Rules.Combinations` | main.py:148 | `itertools.combinations` by positions; `CombinationsMembers`, `CombinationsComplete` and `CombinationsCount` state what it yields |
| `Rules.CombinationsCount` | main.py:148 | there are `Choose(len(s), r)` combinations, by Pascal's rule, and none when `r > len(s)` |
| `Rules.CombinationsMembers` | main.py:148 | every combination has `r` items drawn from the itemset, and is ascending when the itemset is |
| `Rules.CombinationsComplete` | main.py:148 | every ascending `r`-subset of an ascending itemset is one of its combinations |
| `Rules.PrefixCombination` | main.py:147-148 | for `r` up to the size there is at least one combination, so the itemset's own count is always looked up |
| `Rules.Confidence` | main.py:150 | the confidence times the antecedent's count is the itemset's count, and it is not negative |
| `Rules.ConfidenceBounds` | main.py:150 | a confidence whose numerator is at most its denominator lies in `(0, 1]` |
| `Rules.MakeRule` | main.py:152-153 | a rule keeps the antecedent and the itemset's support; its consequent shares no item with the antecedent, and for an antecedent inside the itemset the two together hold exactly the itemset's items |
| `Rules.SoundUpdate` | main.py:151-154 | recording a rule of enough confidence keeps every recorded rule justified |
| `Rules.RulesOfSize` | main.py:148-154 | the loop over the antecedents of one size fails exactly when a lookup is missing or zero. On success it keeps the earlier rules and adds one for each antecedent of enough confidence |
| `Rules.TryAntecedent` | main.py:149-154 | one antecedent fails exactly when the itemset or the antecedent has no count (`KeyError`) or the antecedent's count is 0 (`ZeroDivisionError`), and the error names a lookup that really fails. On success the rule map gains the rule exactly when its confidence reaches the minimum |
| `Rules.RulesFor` | main.py:147-154 | one itemset's loop succeeds exactly when all its lookups succeed, and then adds a rule for each of its antecedents of enough confidence |
| `Rules.BuildAssociationRules` | main.py:143-154 | the builder succeeds exactly when every lookup it makes succeeds, and reports a failing lookup otherwise. On success every rule comes from a frequent itemset and antecedent with enough confidence, and every such pair gives a rule |
| `Rules.AscendingUnique` | main.py:152 | two ascending tuples with the same item set are equal |
| `Rules.TailElems` | main.py:152 | the items of an ascending tuple's tail are its items other than the first |
| `Rules.SubsetElems` | main.py:152 | an antecedent inside `I` with an empty remainder has the same items as `I` |
| `Rules.MinedCovered` | main.py:146-150 | on the miner's output every lookup succeeds and every antecedent's count is at least 1 |
| `Rules.ConfidenceAtMostOne` | main.py:150 | on the miner's output every confidence lies in `(0, 1]` |
| `Rules.RulesExact` | main.py:149-154 | on the miner's output each rule's confidence is its itemset's count over its antecedent's count and lies between the minimum confidence and 1. Its consequent is non-empty and its support is at least the minimum support |

## Left out

- Reading the CSV file (`read_data`, main.py:8-19) is I/O. The model keeps only its guarantee that no row holds an item twice (`DuplicateFree`).
- The output file, the printing, and the sorting of itemsets and rules by support or confidence for display (main.py:134-139, 144, 156-162) are presentation only.
- Command-line parsing and opening the output file (main.py:164-180) are not modelled.
- Support and confidence are exact `real` quotients. The program divides floats, and floating-point rounding at the threshold comparisons is not modelled.
- Items are `int`. The program's items are strings compared lexicographically; only a total order on items is used.
- Dictionary iteration order is a nondeterministic choice (`:|`) in `SelectL1` and `BuildAssociationRules`. `l1` is sorted afterwards, and the rules are collected into a map, so the results do not depend on it.
- A rule's consequent is a set. The program builds a tuple from a Python set, whose order follows the set's iteration order.
- `BuildAssociationRules` reports one failing lookup when several would fail. Which one the program raises first depends on dictionary order.
- The miner requires an empty frequency table on entry, as the program passes it. `CountCandidates` requires distinct candidates, which `AprioriGen` guarantees because its output is strictly sorted.
- Weighted or merged duplicate transactions are not part of the code. It counts every row once and divides by the number of rows (main.py:102), and the model does the same.
