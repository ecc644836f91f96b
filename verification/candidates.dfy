/** Candidate generation (`apriori_gen`): the join step over a list of
    (k-1)-itemsets, with its early `break`, followed by the prune step that
    drops every candidate with a (k-1)-subset missing from the list. */
module Candidates {
  import opened Wrappers
  import opened Itemsets

  predicate NonEmptyItemsets(xs: seq<Itemset>)
  {
    forall s :: s in xs ==> |s| >= 1
  }

  lemma LevelNonEmpty(xs: seq<Itemset>)
    requires IsLevel(xs)
    ensures NonEmptyItemsets(xs)
  {
  }

  /** `check_and_join`: `p` and `q` agree on all but their last item and the
      last item of `p` is the smaller one; the result is `p` extended by the
      last item of `q`. */
  function CheckAndJoin(p: Itemset, q: Itemset): (r: Option<Itemset>)
    requires |p| >= 1 && |q| >= 1
    ensures r.Some? ==> |r.value| == |p| + 1 && r.value[..|p|] == p && r.value[|p|] == q[|q| - 1]
    ensures r.Some? <==> p[|p| - 1] < q[|q| - 1] && |q| >= |p| - 1 && p[..|p| - 1] == q[..|p| - 1]
  {
    var l := |p|;
    if p[l - 1] < q[|q| - 1] && |q| >= l - 1 && p[..l - 1] == q[..l - 1] then
      Some(p + [q[|q| - 1]])
    else
      None
  }

  /** The join of an ascending itemset is ascending. */
  lemma JoinAscending(p: Itemset, q: Itemset)
    requires |p| >= 1 && |q| >= 1 && Ascending(p) && CheckAndJoin(p, q).Some?
    ensures Ascending(CheckAndJoin(p, q).value)
  {
    var c := CheckAndJoin(p, q).value;
    forall i, j | 0 <= i < j < |c| ensures c[i] < c[j] {
      if j < |p| {
        assert c[i] == p[i] && c[j] == p[j];
      } else {
        assert c[i] == p[i] && p[i] <= p[|p| - 1];
      }
    }
  }

  /** Joining the two subsets of an ascending itemset that miss its last and
      its second-to-last item gives back the itemset. */
  lemma JoinOfDrops(c: Itemset)
    requires Ascending(c) && |c| >= 2
    ensures CheckAndJoin(DropAt(c, |c| - 1), DropAt(c, |c| - 2)) == Some(c)
  {
    var n := |c|;
    var p, q := DropAt(c, n - 1), DropAt(c, n - 2);
    assert p == c[..n - 1];
    assert q[..n - 2] == c[..n - 2] == p[..n - 2];
    assert p + [q[n - 2]] == c;
  }

  /** Conversely, two itemsets of one size that join are those two subsets
      of the result. */
  lemma JoinParents(p: Itemset, q: Itemset)
    requires |p| == |q| >= 1 && CheckAndJoin(p, q).Some?
    ensures p == DropAt(CheckAndJoin(p, q).value, |p|)
    ensures q == DropAt(CheckAndJoin(p, q).value, |p| - 1)
  {
    var c := CheckAndJoin(p, q).value;
    var l := |p|;
    assert c == p + [q[l - 1]];
    assert q == q[..l - 1] + [q[l - 1]];
  }

  /** Two itemsets of one size, the first below the second, join exactly
      when they share all but their last item. */
  lemma JoinOrdered(p: Itemset, q: Itemset)
    requires |p| == |q| >= 1 && LexLess(p, q)
    ensures CheckAndJoin(p, q).Some? <==> p[..|p| - 1] == q[..|p| - 1]
  {
    var l := |p|;
    if p[..l - 1] == q[..l - 1] {
      assert p == p[..l - 1] + [p[l - 1]];
      assert q == p[..l - 1] + [q[l - 1]];
      LexLastItem(p[..l - 1], p[l - 1], q[l - 1]);
    }
  }

  // ---------------------------------------------------------------------
  // The join step.

  /** What the inner join loop appends for row `i`, starting at column `j`:
      the joins of `xs[i]` with `xs[j]`, `xs[j+1]`, ... up to the first pair
      that does not join (the `break`). */
  function BreakRow(xs: seq<Itemset>, i: nat, j: nat): seq<Itemset>
    requires NonEmptyItemsets(xs) && i < |xs| && j <= |xs|
    decreases |xs| - j
  {
    if j == |xs| then []
    else match CheckAndJoin(xs[i], xs[j])
      case Some(c) => [c] + BreakRow(xs, i, j + 1)
      case None => []
  }

  /** What the join loops append for rows `i`, `i+1`, ... */
  function BreakJoin(xs: seq<Itemset>, i: nat): seq<Itemset>
    requires NonEmptyItemsets(xs) && i <= |xs|
    decreases |xs| - i
  {
    if i == |xs| then [] else BreakRow(xs, i, i + 1) + BreakJoin(xs, i + 1)
  }

  /** Reference definition without the `break`: the joins of `xs[i]` with
      every `xs[j]`, `j` from the given column on. */
  function AllRow(xs: seq<Itemset>, i: nat, j: nat): seq<Itemset>
    requires NonEmptyItemsets(xs) && i < |xs| && j <= |xs|
    decreases |xs| - j
  {
    if j == |xs| then []
    else
      (match CheckAndJoin(xs[i], xs[j]) case Some(c) => [c] case None => [])
      + AllRow(xs, i, j + 1)
  }

  /** Reference definition: the joins of every pair `i < j`, in loop order. */
  function AllJoin(xs: seq<Itemset>, i: nat): seq<Itemset>
    requires NonEmptyItemsets(xs) && i <= |xs|
    decreases |xs| - i
  {
    if i == |xs| then [] else AllRow(xs, i, i + 1) + AllJoin(xs, i + 1)
  }

  /** `c` is the join of two members of `xs`, the first one earlier. */
  predicate IsJoinOfPair(xs: seq<Itemset>, c: Itemset)
    requires NonEmptyItemsets(xs)
  {
    exists i, j :: 0 <= i < j < |xs| && CheckAndJoin(xs[i], xs[j]) == Some(c)
  }

  /** Everything in a row of the reference join is the join of `xs[i]` with
      a later member `xs[k]`. */
  lemma {:induction false} AllRowSound(xs: seq<Itemset>, i: nat, j: nat, c: Itemset) returns (k: nat)
    requires NonEmptyItemsets(xs) && i < |xs| && j <= |xs| && c in AllRow(xs, i, j)
    ensures j <= k < |xs| && CheckAndJoin(xs[i], xs[k]) == Some(c)
    decreases |xs| - j
  {
    assert j < |xs|;
    if CheckAndJoin(xs[i], xs[j]) == Some(c) {
      k := j;
    } else {
      k := AllRowSound(xs, i, j + 1, c);
    }
  }

  /** Every join of `xs[i]` with a member from column `j` on is in the row. */
  lemma {:induction false} AllRowHas(xs: seq<Itemset>, i: nat, j: nat, k: nat)
    requires NonEmptyItemsets(xs) && i < |xs| && j <= k < |xs| && CheckAndJoin(xs[i], xs[k]).Some?
    ensures CheckAndJoin(xs[i], xs[k]).value in AllRow(xs, i, j)
    decreases k - j
  {
    if j < k {
      AllRowHas(xs, i, j + 1, k);
    }
  }

  lemma {:induction false} BreakRowMembers(xs: seq<Itemset>, i: nat, j: nat, c: Itemset)
    requires NonEmptyItemsets(xs) && i < |xs| && j <= |xs|
    requires c in BreakRow(xs, i, j)
    ensures exists k :: j <= k < |xs| && CheckAndJoin(xs[i], xs[k]) == Some(c)
    decreases |xs| - j
  {
    if CheckAndJoin(xs[i], xs[j]) != Some(c) {
      BreakRowMembers(xs, i, j + 1, c);
    }
  }

  /** Everything in the reference join is the join of a pair `a < b`. */
  lemma {:induction false} AllJoinSound(xs: seq<Itemset>, i: nat, c: Itemset) returns (a: nat, b: nat)
    requires NonEmptyItemsets(xs) && i <= |xs| && c in AllJoin(xs, i)
    ensures i <= a < b < |xs| && CheckAndJoin(xs[a], xs[b]) == Some(c)
    decreases |xs| - i
  {
    assert i < |xs|;
    var row := AllRow(xs, i, i + 1);
    assert AllJoin(xs, i) == row + AllJoin(xs, i + 1);
    if c in row {
      a := i;
      b := AllRowSound(xs, i, i + 1, c);
    } else {
      a, b := AllJoinSound(xs, i + 1, c);
    }
  }

  /** The join of every pair `a < b` from row `i` on is in the reference
      join. */
  lemma {:induction false} AllJoinHas(xs: seq<Itemset>, i: nat, a: nat, b: nat)
    requires NonEmptyItemsets(xs) && i <= a < b < |xs| && CheckAndJoin(xs[a], xs[b]).Some?
    ensures CheckAndJoin(xs[a], xs[b]).value in AllJoin(xs, i)
    decreases a - i
  {
    if a == i {
      AllRowHas(xs, i, i + 1, b);
    } else {
      AllJoinHas(xs, i + 1, a, b);
    }
  }

  /** The members of the reference join are exactly the joins of pairs. */
  lemma AllJoinMembers(xs: seq<Itemset>, c: Itemset)
    requires NonEmptyItemsets(xs)
    ensures c in AllJoin(xs, 0) <==> IsJoinOfPair(xs, c)
  {
    if c in AllJoin(xs, 0) {
      var a, b := AllJoinSound(xs, 0, c);
    }
    if IsJoinOfPair(xs, c) {
      var a, b :| 0 <= a < b < |xs| && CheckAndJoin(xs[a], xs[b]) == Some(c);
      AllJoinHas(xs, 0, a, b);
    }
  }

  /** Whatever the join loops produce, with or without the `break`, is the
      join of two members of the input, the first one earlier. */
  lemma {:induction false} BreakJoinSound(xs: seq<Itemset>, i: nat, c: Itemset)
    requires NonEmptyItemsets(xs) && i <= |xs| && c in BreakJoin(xs, i)
    ensures IsJoinOfPair(xs, c)
    decreases |xs| - i
  {
    if c in BreakRow(xs, i, i + 1) {
      BreakRowMembers(xs, i, i + 1, c);
      var k :| i + 1 <= k < |xs| && CheckAndJoin(xs[i], xs[k]) == Some(c);
    } else {
      BreakJoinSound(xs, i + 1, c);
    }
  }

  /** In a level, the members that share all but the last item with `xs[i]`
      form one run: if `xs[i]` does not join `xs[j]`, it joins nothing after. */
  lemma NoJoinAfterGap(xs: seq<Itemset>, i: nat, j: nat, k: nat)
    requires IsLevel(xs) && i < j < k < |xs|
    requires CheckAndJoin(xs[i], xs[k]).Some?
    ensures CheckAndJoin(xs[i], xs[j]).Some?
  {
    var m := |xs[0]|;
    assert |xs[i]| == |xs[j]| == |xs[k]| == m;
    var p := xs[i][..m - 1];
    JoinOrdered(xs[i], xs[k]);
    LexPrefix(xs[i], xs[j], m - 1);
    LexPrefix(xs[j], xs[k], m - 1);
    var mid := xs[j][..m - 1];
    if mid != p {
      if LexLess(p, mid) && LexLess(mid, p) {
        LexAsymmetric(p, mid);
      }
      assert false;
    }
    JoinOrdered(xs[i], xs[j]);
  }

  lemma {:induction false} AllRowEmpty(xs: seq<Itemset>, i: nat, j: nat)
    requires NonEmptyItemsets(xs) && i < |xs| && j <= |xs|
    requires forall k :: j <= k < |xs| ==> CheckAndJoin(xs[i], xs[k]).None?
    ensures AllRow(xs, i, j) == []
    decreases |xs| - j
  {
    if j < |xs| { AllRowEmpty(xs, i, j + 1); }
  }

  /** The partners each member joins with form one run: if `xs[i]` joins a
      later `xs[k]`, it joins every member in between. */
  predicate JoinRuns(xs: seq<Itemset>)
    requires NonEmptyItemsets(xs)
  {
    forall i, j, k :: 0 <= i < j < k < |xs| && CheckAndJoin(xs[i], xs[k]).Some? ==>
      CheckAndJoin(xs[i], xs[j]).Some?
  }

  /** On a level the joinable partners of each member form one run. */
  lemma LevelJoinRuns(xs: seq<Itemset>)
    requires IsLevel(xs)
    ensures NonEmptyItemsets(xs) && JoinRuns(xs)
  {
    LevelNonEmpty(xs);
    forall i, j, k | 0 <= i < j < k < |xs| && CheckAndJoin(xs[i], xs[k]).Some?
      ensures CheckAndJoin(xs[i], xs[j]).Some?
    {
      NoJoinAfterGap(xs, i, j, k);
    }
  }

  /** When joinable partners form runs, the `break` loses no pair: each row
      stops exactly where its run ends. */
  lemma {:induction false} BreakRowIsAllRow(xs: seq<Itemset>, i: nat, j: nat)
    requires NonEmptyItemsets(xs) && JoinRuns(xs) && i < j <= |xs|
    ensures BreakRow(xs, i, j) == AllRow(xs, i, j)
    decreases |xs| - j
  {
    if j < |xs| {
      match CheckAndJoin(xs[i], xs[j])
      case Some(c) =>
        BreakRowIsAllRow(xs, i, j + 1);
        assert BreakRow(xs, i, j) == [c] + BreakRow(xs, i, j + 1);
        assert AllRow(xs, i, j) == [c] + AllRow(xs, i, j + 1);
      case None =>
        AllRowEmpty(xs, i, j + 1);
        assert AllRow(xs, i, j) == [] + AllRow(xs, i, j + 1);
    }
  }

  lemma {:induction false} BreakJoinIsAllJoin(xs: seq<Itemset>, i: nat)
    requires NonEmptyItemsets(xs) && JoinRuns(xs) && i <= |xs|
    ensures BreakJoin(xs, i) == AllJoin(xs, i)
    decreases |xs| - i
  {
    if i < |xs| {
      BreakRowIsAllRow(xs, i, i + 1);
      BreakJoinIsAllJoin(xs, i + 1);
    }
  }

  /** Within one row the joins come out strictly sorted, each one `xs[i]`
      extended by one item. */
  lemma {:induction false} AllRowSorted(xs: seq<Itemset>, i: nat, j: nat)
    requires IsLevel(xs) && i < j <= |xs|
    ensures SortedStrict(AllRow(xs, i, j))
    decreases |xs| - j
  {
    LevelNonEmpty(xs);
    if j < |xs| {
      AllRowSorted(xs, i, j + 1);
      var rest := AllRow(xs, i, j + 1);
      match CheckAndJoin(xs[i], xs[j])
      case None =>
        assert AllRow(xs, i, j) == [] + rest;
      case Some(c) =>
        RowHeadBelow(xs, i, j, c);
        RowBound(xs, i, j + 1, c);
        SortedConcat([c], rest);
        assert AllRow(xs, i, j) == [c] + rest;
    }
  }

  /** A join in a row is below every join later in the same row. */
  lemma RowHeadBelow(xs: seq<Itemset>, i: nat, j: nat, c: Itemset)
    requires IsLevel(xs) && i < j < |xs| && CheckAndJoin(xs[i], xs[j]) == Some(c)
    ensures forall k :: j < k < |xs| && CheckAndJoin(xs[i], xs[k]).Some? ==>
      LexLess(c, CheckAndJoin(xs[i], xs[k]).value)
  {
    forall k | j < k < |xs| && CheckAndJoin(xs[i], xs[k]).Some?
      ensures LexLess(c, CheckAndJoin(xs[i], xs[k]).value)
    {
      RowJoinsOrdered(xs, i, j, k);
    }
  }

  /** A bound on every join of `xs[i]` from column `j` on bounds the row. */
  lemma RowBound(xs: seq<Itemset>, i: nat, j: nat, c: Itemset)
    requires NonEmptyItemsets(xs) && i < |xs| && j <= |xs|
    requires forall k :: j <= k < |xs| && CheckAndJoin(xs[i], xs[k]).Some? ==>
      LexLess(c, CheckAndJoin(xs[i], xs[k]).value)
    ensures forall d :: d in AllRow(xs, i, j) ==> LexLess(c, d)
  {
    forall d | d in AllRow(xs, i, j) ensures LexLess(c, d) {
      var k := AllRowSound(xs, i, j, d);
    }
  }

  /** Every join in row `i` is below every join of later rows. */
  lemma RowBelowRest(xs: seq<Itemset>, i: nat)
    requires IsLevel(xs) && i < |xs|
    ensures forall c, d :: c in AllRow(xs, i, i + 1) && d in AllJoin(xs, i + 1) ==> LexLess(c, d)
  {
    LevelNonEmpty(xs);
    forall c, d | c in AllRow(xs, i, i + 1) && d in AllJoin(xs, i + 1) ensures LexLess(c, d) {
      var k := AllRowSound(xs, i, i + 1, c);
      var b, l := AllJoinSound(xs, i + 1, d);
      RowsOrdered(xs, i, b, k, l);
    }
  }

  lemma RowJoinsOrdered(xs: seq<Itemset>, i: nat, j: nat, k: nat)
    requires IsLevel(xs) && i < j < k < |xs|
    requires CheckAndJoin(xs[i], xs[j]).Some? && CheckAndJoin(xs[i], xs[k]).Some?
    ensures LexLess(CheckAndJoin(xs[i], xs[j]).value, CheckAndJoin(xs[i], xs[k]).value)
  {
    assert |xs[i]| == |xs[j]| == |xs[k]| == |xs[0]|;
    assert LexLess(xs[j], xs[k]);
    JoinsOrdered(xs[i], xs[j], xs[k]);
  }

  /** Two joins of the same `p` are ordered like the partners they joined. */
  lemma JoinsOrdered(p: Itemset, q: Itemset, r: Itemset)
    requires |p| == |q| == |r| >= 1 && LexLess(q, r)
    requires CheckAndJoin(p, q).Some? && CheckAndJoin(p, r).Some?
    ensures LexLess(CheckAndJoin(p, q).value, CheckAndJoin(p, r).value)
  {
    var m := |p|;
    var pre := q[..m - 1];
    assert q == pre + [q[m - 1]];
    assert r == pre + [r[m - 1]];
    LexLastItem(pre, q[m - 1], r[m - 1]);
    LexLastItem(p, q[m - 1], r[m - 1]);
  }

  lemma RowsOrdered(xs: seq<Itemset>, a: nat, b: nat, i: nat, k: nat)
    requires IsLevel(xs) && a < b < |xs| && i < |xs| && k < |xs|
    requires CheckAndJoin(xs[a], xs[i]).Some? && CheckAndJoin(xs[b], xs[k]).Some?
    ensures LexLess(CheckAndJoin(xs[a], xs[i]).value, CheckAndJoin(xs[b], xs[k]).value)
  {
    assert |xs[a]| == |xs[b]| == |xs[0]|;
    LexExtend(xs[a], xs[b], xs[i][|xs[i]| - 1], xs[k][|xs[k]| - 1]);
  }

  /** The reference join of a level is strictly sorted. */
  lemma {:induction false} AllJoinSorted(xs: seq<Itemset>, i: nat)
    requires IsLevel(xs) && i <= |xs|
    ensures SortedStrict(AllJoin(xs, i))
    decreases |xs| - i
  {
    LevelNonEmpty(xs);
    if i < |xs| {
      AllRowSorted(xs, i, i + 1);
      AllJoinSorted(xs, i + 1);
      var row, rest := AllRow(xs, i, i + 1), AllJoin(xs, i + 1);
      RowBelowRest(xs, i);
      SortedConcat(row, rest);
    }
  }

  // ---------------------------------------------------------------------
  // The prune step.

  /** Every subset of `c` obtained by removing one of its items, the way the
      prune step removes it (`list.remove`), is in `xs`. */
  predicate Survives(c: Itemset, xs: seq<Itemset>)
  {
    forall t :: 0 <= t < |c| ==> RemoveFirst(c, c[t]) in xs
  }

  /** Every subset of `c` with one position dropped is in `xs`. */
  predicate AllDropsIn(c: Itemset, xs: seq<Itemset>)
  {
    forall t :: 0 <= t < |c| ==> DropAt(c, t) in xs
  }

  lemma SurvivesAscending(c: Itemset, xs: seq<Itemset>)
    requires Ascending(c)
    ensures Survives(c, xs) <==> AllDropsIn(c, xs)
  {
    forall t | 0 <= t < |c| ensures RemoveFirst(c, c[t]) == DropAt(c, t) {
      RemoveFirstAscending(c, t);
    }
  }

  /** The candidates that the prune step keeps, in order. */
  function Kept(cs: seq<Itemset>, xs: seq<Itemset>): seq<Itemset>
  {
    if cs == [] then []
    else (if Survives(cs[0], xs) then [cs[0]] else []) + Kept(cs[1..], xs)
  }

  /** The candidates that the prune step collects in `remove_l`, in order. */
  function Rejected(cs: seq<Itemset>, xs: seq<Itemset>): seq<Itemset>
  {
    if cs == [] then []
    else (if Survives(cs[0], xs) then [] else [cs[0]]) + Rejected(cs[1..], xs)
  }

  /** The prune step keeps exactly the candidates that survive it. */
  lemma {:induction false} KeptMembers(cs: seq<Itemset>, xs: seq<Itemset>)
    ensures forall c :: c in Kept(cs, xs) <==> c in cs && Survives(c, xs)
  {
    if cs != [] {
      KeptMembers(cs[1..], xs);
      assert cs == [cs[0]] + cs[1..];
    }
  }

  lemma RejectedStep(cs: seq<Itemset>, k: nat, xs: seq<Itemset>)
    requires k < |cs|
    ensures Rejected(cs[k..], xs) ==
              (if Survives(cs[k], xs) then [] else [cs[k]]) + Rejected(cs[k + 1..], xs)
  {
    assert cs[k..][1..] == cs[k + 1..];
  }

  /** Kept and rejected candidates split the candidate list. */
  lemma {:induction false} KeptRejectedSplit(cs: seq<Itemset>, xs: seq<Itemset>)
    ensures multiset(Kept(cs, xs)) + multiset(Rejected(cs, xs)) == multiset(cs)
  {
    if cs != [] {
      KeptRejectedSplit(cs[1..], xs);
      assert cs == [cs[0]] + cs[1..];
    }
  }

  lemma {:induction false} KeptSorted(cs: seq<Itemset>, xs: seq<Itemset>)
    requires SortedStrict(cs)
    ensures SortedStrict(Kept(cs, xs))
  {
    if cs != [] {
      var tail := cs[1..];
      assert SortedStrict(tail);
      KeptSorted(tail, xs);
      KeptMembers(tail, xs);
      forall d | d in Kept(tail, xs) ensures LexLess(cs[0], d) {
        var k :| 0 <= k < |tail| && tail[k] == d;
        assert cs[k + 1] == d;
      }
      SortedConcat(if Survives(cs[0], xs) then [cs[0]] else [], Kept(tail, xs));
    }
  }

  /** Every ascending itemset one item larger than the members of a level,
      all of whose one-item-smaller subsets are in the level, is produced by
      the join: the join is complete. */
  lemma JoinComplete(xs: seq<Itemset>, c: Itemset)
    requires IsLevel(xs) && xs != []
    requires Ascending(c) && |c| == |xs[0]| + 1 && AllDropsIn(c, xs)
    ensures c in AllJoin(xs, 0)
  {
    LevelNonEmpty(xs);
    var n := |c|;
    var p, q := DropAt(c, n - 1), DropAt(c, n - 2);
    var a :| 0 <= a < |xs| && xs[a] == p;
    var b :| 0 <= b < |xs| && xs[b] == q;
    DropsOrdered(c);
    if b <= a {
      if b < a {
        assert LexLess(xs[b], xs[a]);
        LexAsymmetric(p, q);
      }
      assert false;
    }
    JoinOfDrops(c);
    AllJoinHas(xs, 0, a, b);
  }

  /** The subset missing the last item of an ascending itemset comes, in
      tuple order, before the one missing the second-to-last item. */
  lemma DropsOrdered(c: Itemset)
    requires Ascending(c) && |c| >= 2
    ensures LexLess(DropAt(c, |c| - 1), DropAt(c, |c| - 2))
    ensures DropAt(c, |c| - 1) != DropAt(c, |c| - 2)
  {
    var n := |c|;
    var p, q := DropAt(c, n - 1), DropAt(c, n - 2);
    assert p == c[..n - 2] + [c[n - 2]];
    assert q == c[..n - 2] + [c[n - 1]];
    LexLastItem(c[..n - 2], c[n - 2], c[n - 1]);
    assert p[n - 2] != q[n - 2];
  }

  // ---------------------------------------------------------------------
  // The generator.

  /** Lines 58-64: the nested join loop with its `break`. */
  method JoinStep(prevL: seq<Itemset>) returns (currL: seq<Itemset>)
    requires NonEmptyItemsets(prevL)
    ensures currL == BreakJoin(prevL, 0)
  {
    currL := [];
    for i := 0 to |prevL|
      invariant currL + BreakJoin(prevL, i) == BreakJoin(prevL, 0)
    {
      var row := JoinRow(prevL, i);
      assert BreakJoin(prevL, i) == row + BreakJoin(prevL, i + 1);
      assert currL + BreakJoin(prevL, i) == (currL + row) + BreakJoin(prevL, i + 1);
      currL := currL + row;
    }
  }

  /** Lines 59-64: one pass of the inner join loop, for row `i`, up to the
      first pair that does not join. */
  method JoinRow(prevL: seq<Itemset>, i: nat) returns (row: seq<Itemset>)
    requires NonEmptyItemsets(prevL) && i < |prevL|
    ensures row == BreakRow(prevL, i, i + 1)
  {
    row := [];
    var j := i + 1;
    while j < |prevL|
      invariant i + 1 <= j <= |prevL|
      invariant row + BreakRow(prevL, i, j) == BreakRow(prevL, i, i + 1)
    {
      var itemset := CheckAndJoin(prevL[i], prevL[j]);
      if itemset.Some? {
        assert BreakRow(prevL, i, j) == [itemset.value] + BreakRow(prevL, i, j + 1);
        row := row + [itemset.value];
      } else {
        assert BreakRow(prevL, i, j) == [];
        break;
      }
      j := j + 1;
    }
  }

  /** Lines 67-75: collect in `remove_l` every candidate that has a
      one-item-smaller subset missing from `prevL`. */
  method CollectRejected(cands: seq<Itemset>, prevL: seq<Itemset>) returns (removeL: seq<Itemset>)
    ensures removeL == Rejected(cands, prevL)
  {
    removeL := [];
    for k := 0 to |cands|
      invariant removeL + Rejected(cands[k..], prevL) == Rejected(cands, prevL)
    {
      var missing := SubsetMissing(cands[k], prevL);
      RejectedStep(cands, k, prevL);
      if missing {
        removeL := removeL + [cands[k]];
      }
    }
  }

  /** Lines 69-75: the inner loop over the items of one candidate, which
      stops at the first subset (the candidate with that item removed by
      `list.remove`) missing from `prevL`. */
  method SubsetMissing(itemset: Itemset, prevL: seq<Itemset>) returns (missing: bool)
    ensures missing <==> !Survives(itemset, prevL)
  {
    missing := false;
    var t := 0;
    while t < |itemset|
      invariant 0 <= t <= |itemset|
      invariant forall u :: 0 <= u < t ==> RemoveFirst(itemset, itemset[u]) in prevL
    {
      var subset := RemoveFirst(itemset, itemset[t]);
      if subset !in prevL {
        missing := true;
        break;
      }
      t := t + 1;
    }
  }

  /** Lines 66-77: the prune step. Each collected candidate is removed
      from the candidate list with `list.remove`. */
  method PruneStep(cands: seq<Itemset>, prevL: seq<Itemset>) returns (kept: seq<Itemset>)
    ensures multiset(kept) == multiset(Kept(cands, prevL))
    ensures SortedStrict(cands) ==> kept == Kept(cands, prevL)
  {
    var removeL := CollectRejected(cands, prevL);
    KeptRejectedSplit(cands, prevL);
    assert multiset(removeL) <= multiset(cands);
    kept := RemoveEach(cands, removeL);
    MultisetCancel(multiset(Kept(cands, prevL)), multiset(removeL), multiset(cands));
    if SortedStrict(cands) {
      KeptSorted(cands, prevL);
      SortedUnique(kept, Kept(cands, prevL));
    }
  }

  /** Lines 76-77: remove each itemset of `removeL` from `cands`, one
      `list.remove` (first occurrence) at a time. */
  method RemoveEach(cands: seq<Itemset>, removeL: seq<Itemset>) returns (kept: seq<Itemset>)
    requires multiset(removeL) <= multiset(cands)
    ensures multiset(kept) == multiset(cands) - multiset(removeL)
    ensures SortedStrict(cands) ==> SortedStrict(kept)
  {
    kept := cands;
    for k := 0 to |removeL|
      invariant multiset(kept) + multiset(removeL[..k]) == multiset(cands)
      invariant SortedStrict(cands) ==> SortedStrict(kept)
    {
      var x := removeL[k];
      PrefixStep(removeL, k);
      assert x in kept by {
        assert multiset(kept)[x] == multiset(cands)[x] - multiset(removeL[..k])[x];
      }
      RemoveFirstMultiset(kept, x);
      if SortedStrict(kept) { RemoveFirstSorted(kept, x); }
      kept := RemoveFirst(kept, x);
    }
    assert removeL[..|removeL|] == removeL;
    MultisetCancel(multiset(kept), multiset(removeL), multiset(cands));
  }

  lemma MultisetCancel(a: multiset<Itemset>, b: multiset<Itemset>, c: multiset<Itemset>)
    requires a + b == c
    ensures a == c - b
  {
    forall x ensures a[x] == (c - b)[x] {
      assert c[x] == a[x] + b[x];
    }
  }

  lemma PrefixStep(r: seq<Itemset>, k: nat)
    requires k < |r|
    ensures multiset(r[..k + 1]) == multiset(r[..k]) + multiset{r[k]}
    ensures multiset(r[..k + 1]) <= multiset(r)
  {
    assert r[..k + 1] == r[..k] + [r[k]];
    assert r == r[..k + 1] + r[k + 1..];
  }

  /** `apriori_gen`: the candidates of the next level. Every candidate is
      the join of two earlier-later members of `prevL` and has all its
      one-item-smaller subsets in `prevL`. When `prevL` is a level (strictly
      sorted, ascending itemsets of one size), the result is again a level,
      one item larger, and holds exactly the ascending itemsets of that size
      whose one-item-smaller subsets all lie in `prevL`. */
  method AprioriGen(prevL: seq<Itemset>) returns (currL: seq<Itemset>)
    requires NonEmptyItemsets(prevL)
    ensures multiset(currL) == multiset(Kept(BreakJoin(prevL, 0), prevL))
    ensures forall c :: c in currL ==> Survives(c, prevL) && IsJoinOfPair(prevL, c)
    ensures IsLevel(prevL) ==> IsLevel(currL)
    ensures IsLevel(prevL) && prevL != [] ==>
              (forall c :: c in currL ==> |c| == |prevL[0]| + 1) &&
              (forall c :: |c| == |prevL[0]| + 1 && Ascending(c) ==> (c in currL <==> AllDropsIn(c, prevL)))
  {
    var joined := JoinStep(prevL);
    currL := PruneStep(joined, prevL);
    KeptMembers(joined, prevL);
    forall c | c in currL ensures Survives(c, prevL) && IsJoinOfPair(prevL, c) {
      assert c in multiset(Kept(joined, prevL));
      BreakJoinSound(prevL, 0, c);
    }
    if IsLevel(prevL) {
      LevelJoinRuns(prevL);
      BreakJoinIsAllJoin(prevL, 0);
      AllJoinSorted(prevL, 0);
      KeptSorted(joined, prevL);
      LevelOfJoin(prevL, currL);
    }
  }

  lemma LevelOfJoin(prevL: seq<Itemset>, currL: seq<Itemset>)
    requires IsLevel(prevL) && SortedStrict(currL)
    requires forall c :: c in currL ==> Survives(c, prevL) && IsJoinOfPair(prevL, c)
    requires forall c :: c in currL <==> c in AllJoin(prevL, 0) && Survives(c, prevL)
    ensures IsLevel(currL)
    ensures prevL != [] ==>
              (forall c :: c in currL ==> |c| == |prevL[0]| + 1) &&
              (forall c :: |c| == |prevL[0]| + 1 && Ascending(c) ==> (c in currL <==> AllDropsIn(c, prevL)))
  {
    forall c | c in currL ensures Ascending(c) && |c| >= 1 && (prevL != [] ==> |c| == |prevL[0]| + 1) {
      var a, b :| 0 <= a < b < |prevL| && CheckAndJoin(prevL[a], prevL[b]) == Some(c);
      assert prevL[a] in prevL;
      JoinAscending(prevL[a], prevL[b]);
    }
    if prevL != [] {
      forall c | |c| == |prevL[0]| + 1 && Ascending(c) ensures c in currL <==> AllDropsIn(c, prevL) {
        SurvivesAscending(c, prevL);
        if AllDropsIn(c, prevL) { JoinComplete(prevL, c); }
      }
    }
    if currL != [] {
      assert currL[0] in currL;
    }
  }
}
