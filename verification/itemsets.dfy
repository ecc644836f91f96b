/** Items, itemsets and the orderings the Apriori code relies on.
    An itemset is a tuple of items; the miner keeps it strictly ascending.
    Lists of itemsets are compared the way Python compares tuples. */
module Itemsets {

  /** Items are strings in the program, compared lexicographically;
      any totally ordered type serves, and `int` is used here. */
  type Item = int
  type Itemset = seq<Item>

  /** Strictly ascending: the canonical form of an itemset. */
  predicate Ascending(s: Itemset)
  {
    forall i, j :: 0 <= i < j < |s| ==> s[i] < s[j]
  }

  /** Every item of `a` occurs in `s`. */
  predicate SubsetOf(a: Itemset, s: Itemset)
  {
    forall x :: x in a ==> x in s
  }

  /** The set of items of a tuple, as Python's `set(t)`. */
  function Elems(s: Itemset): set<Item>
  {
    set x | x in s
  }

  /** `s` with the item at position `t` taken out. */
  function DropAt(s: Itemset, t: nat): (r: Itemset)
    requires t < |s|
    ensures |r| == |s| - 1
    ensures forall i :: 0 <= i < t ==> r[i] == s[i]
    ensures forall i :: t <= i < |r| ==> r[i] == s[i + 1]
  {
    s[..t] + s[t + 1..]
  }

  lemma DropAtAscending(s: Itemset, t: nat)
    requires t < |s| && Ascending(s)
    ensures Ascending(DropAt(s, t)) && SubsetOf(DropAt(s, t), s)
  {
    var r := DropAt(s, t);
    forall x | x in r ensures x in s {
      var i :| 0 <= i < |r| && r[i] == x;
      if i < t { assert s[i] == x; } else { assert s[i + 1] == x; }
    }
  }

  /** Python's `list.remove(x)`: delete the first occurrence of `x`. */
  function RemoveFirst<T(==)>(s: seq<T>, x: T): (r: seq<T>)
    requires x in s
    ensures |r| == |s| - 1
  {
    if s[0] == x then s[1..] else [s[0]] + RemoveFirst(s[1..], x)
  }

  lemma {:induction false} RemoveFirstMultiset<T>(s: seq<T>, x: T)
    requires x in s
    ensures multiset(RemoveFirst(s, x)) == multiset(s) - multiset{x}
  {
    assert s == [s[0]] + s[1..];
    if s[0] != x { RemoveFirstMultiset(s[1..], x); }
  }

  /** On an ascending tuple the first occurrence of `s[t]` is position `t`,
      so removing the item is dropping the position. */
  lemma {:induction false} RemoveFirstAscending(s: Itemset, t: nat)
    requires t < |s| && Ascending(s)
    ensures RemoveFirst(s, s[t]) == DropAt(s, t)
    decreases t
  {
    if t == 0 {
      assert s[0] == s[t];
      assert RemoveFirst(s, s[0]) == s[1..];
    } else {
      var tail := s[1..];
      var x := s[t];
      assert tail[t - 1] == x;
      AscendingTail(s);
      assert s[0] != x;
      assert RemoveFirst(s, x) == [s[0]] + RemoveFirst(tail, x);
      RemoveFirstAscending(tail, t - 1);
      DropAtCons(s, t);
    }
  }

  lemma DropAtCons(s: Itemset, t: nat)
    requires 0 < t < |s|
    ensures [s[0]] + DropAt(s[1..], t - 1) == DropAt(s, t)
  {
    assert s[1..][..t - 1] == s[1..t];
    assert s[1..][t..] == s[t + 1..];
    assert s[..t] == [s[0]] + s[1..t];
  }

  lemma AscendingTail(s: Itemset)
    requires |s| > 0 && Ascending(s)
    ensures Ascending(s[1..])
  {
    var tail := s[1..];
    forall i, j | 0 <= i < j < |tail| ensures tail[i] < tail[j] {
      assert tail[i] == s[i + 1] && tail[j] == s[j + 1];
    }
  }

  // ---------------------------------------------------------------------
  // Tuple ordering (Python compares tuples lexicographically; a proper
  // prefix is smaller).

  predicate LexLess(a: Itemset, b: Itemset)
    ensures |a| < |b| && a == b[..|a|] ==> LexLess(a, b)
    ensures LexLess(a, b) ==> a != b
    decreases |a|
  {
    if |a| == 0 then |b| > 0
    else |b| > 0 && (a[0] < b[0] || (a[0] == b[0] && LexLess(a[1..], b[1..])))
  }

  lemma {:induction false} LexIrreflexive(a: Itemset)
    ensures !LexLess(a, a)
    decreases |a|
  {
    if |a| > 0 { LexIrreflexive(a[1..]); }
  }

  lemma {:induction false} LexTransitive(a: Itemset, b: Itemset, c: Itemset)
    requires LexLess(a, b) && LexLess(b, c)
    ensures LexLess(a, c)
    decreases |a|
  {
    if |a| > 0 && a[0] == b[0] && b[0] == c[0] {
      LexTransitive(a[1..], b[1..], c[1..]);
    }
  }

  lemma LexAsymmetric(a: Itemset, b: Itemset)
    requires LexLess(a, b)
    ensures !LexLess(b, a)
  {
    if LexLess(b, a) {
      LexTransitive(a, b, a);
      LexIrreflexive(a);
    }
  }

  lemma {:induction false} LexTotal(a: Itemset, b: Itemset)
    requires a != b
    ensures LexLess(a, b) || LexLess(b, a)
    decreases |a|
  {
    if |a| > 0 && |b| > 0 && a[0] == b[0] {
      assert a == [a[0]] + a[1..] && b == [b[0]] + b[1..];
      LexTotal(a[1..], b[1..]);
    }
  }

  /** Two tuples that differ only in their last item are ordered by it. */
  lemma {:induction false} LexLastItem(p: Itemset, x: Item, y: Item)
    ensures LexLess(p + [x], p + [y]) <==> x < y
    decreases |p|
  {
    if |p| > 0 {
      assert (p + [x])[1..] == p[1..] + [x];
      assert (p + [y])[1..] == p[1..] + [y];
      LexLastItem(p[1..], x, y);
    }
  }

  /** Between tuples of equal length, the order survives appending an item
      to each. */
  lemma {:induction false} LexExtend(a: Itemset, b: Itemset, x: Item, y: Item)
    requires |a| == |b| && LexLess(a, b)
    ensures LexLess(a + [x], b + [y])
    decreases |a|
  {
    assert |a| > 0;
    if a[0] == b[0] {
      assert (a + [x])[1..] == a[1..] + [x];
      assert (b + [y])[1..] == b[1..] + [y];
      LexExtend(a[1..], b[1..], x, y);
    }
  }

  /** Between tuples of equal length, the order of the tuples bounds the
      order of their prefixes. */
  lemma {:induction false} LexPrefix(a: Itemset, b: Itemset, t: nat)
    requires |a| == |b| && t <= |a| && LexLess(a, b)
    ensures a[..t] == b[..t] || LexLess(a[..t], b[..t])
    decreases t
  {
    if t > 0 && a[0] == b[0] {
      LexPrefix(a[1..], b[1..], t - 1);
      assert a[1..][..t - 1] == a[1..t] && a[..t] == [a[0]] + a[1..t];
      assert a[..t] == [a[0]] + a[1..][..t - 1];
      assert b[..t] == [b[0]] + b[1..][..t - 1];
    }
  }

  // ---------------------------------------------------------------------
  // Lists of itemsets.

  predicate SortedStrict(xs: seq<Itemset>)
  {
    forall i, j {:trigger LexLess(xs[i], xs[j])} :: 0 <= i < j < |xs| ==> LexLess(xs[i], xs[j])
  }

  predicate Distinct<T(==)>(xs: seq<T>)
  {
    forall i, j :: 0 <= i < j < |xs| ==> xs[i] != xs[j]
  }

  /** One level of the miner: a strictly sorted list of ascending itemsets
      that all have the same, positive, size. */
  predicate IsLevel(xs: seq<Itemset>)
  {
    SortedStrict(xs) &&
    (forall s :: s in xs ==> Ascending(s) && |s| >= 1) &&
    (forall i :: 0 <= i < |xs| ==> |xs[i]| == |xs[0]|)
  }

  lemma SortedDistinct(xs: seq<Itemset>)
    requires SortedStrict(xs)
    ensures Distinct(xs)
  {
    forall i, j | 0 <= i < j < |xs| ensures xs[i] != xs[j] {
      LexIrreflexive(xs[i]);
    }
  }

  /** Two strictly sorted lists with the same elements are the same list. */
  lemma {:induction false} SortedUnique(xs: seq<Itemset>, ys: seq<Itemset>)
    requires SortedStrict(xs) && SortedStrict(ys) && multiset(xs) == multiset(ys)
    ensures xs == ys
    decreases |xs|
  {
    if |xs| > 0 {
      assert |ys| == |multiset(ys)| == |multiset(xs)| == |xs|;
      SortedSameHead(xs, ys);
      MultisetTail(xs);
      MultisetTail(ys);
      SortedUnique(xs[1..], ys[1..]);
    }
  }

  lemma SortedSameHead(xs: seq<Itemset>, ys: seq<Itemset>)
    requires SortedStrict(xs) && SortedStrict(ys) && multiset(xs) == multiset(ys)
    requires |xs| > 0 && |ys| > 0
    ensures xs[0] == ys[0]
  {
    assert xs[0] in multiset(ys) && ys[0] in multiset(xs);
    var i :| 0 <= i < |xs| && xs[i] == ys[0];
    var j :| 0 <= j < |ys| && ys[j] == xs[0];
    if xs[0] != ys[0] {
      assert LexLess(xs[0], ys[0]) && LexLess(ys[0], xs[0]);
      LexAsymmetric(xs[0], ys[0]);
    }
  }

  lemma MultisetTail<T>(xs: seq<T>)
    requires |xs| > 0
    ensures multiset(xs[1..]) == multiset(xs) - multiset{xs[0]}
  {
    assert xs == [xs[0]] + xs[1..];
  }

  /** Removing an element keeps a strictly sorted list strictly sorted. */
  lemma {:induction false} RemoveFirstSorted(xs: seq<Itemset>, x: Itemset)
    requires x in xs && SortedStrict(xs)
    ensures SortedStrict(RemoveFirst(xs, x))
    decreases |xs|
  {
    if xs[0] != x {
      var tail := xs[1..];
      assert SortedStrict(tail);
      RemoveFirstSorted(tail, x);
      var rest := RemoveFirst(tail, x);
      RemoveFirstMultiset(tail, x);
      forall e | e in rest ensures LexLess(xs[0], e) {
        assert e in multiset(rest);
        assert e in multiset(tail);
        var k :| 0 <= k < |tail| && tail[k] == e;
        assert xs[k + 1] == e;
      }
    }
  }

  /** A concatenation of strictly sorted lists, every element of the first
      below every element of the second, is strictly sorted. */
  lemma SortedConcat(xs: seq<Itemset>, ys: seq<Itemset>)
    requires SortedStrict(xs) && SortedStrict(ys)
    requires forall a, b :: a in xs && b in ys ==> LexLess(a, b)
    ensures SortedStrict(xs + ys)
  {
    var zs := xs + ys;
    forall i, j | 0 <= i < j < |zs| ensures LexLess(zs[i], zs[j]) {
      if j < |xs| {
        assert zs[i] == xs[i] && zs[j] == xs[j];
      } else if i >= |xs| {
        assert zs[i] == ys[i - |xs|] && zs[j] == ys[j - |xs|];
      } else {
        assert zs[i] in xs && zs[j] in ys;
      }
    }
  }

  // ---------------------------------------------------------------------
  // Python's `list.sort()` on a list of tuples, as an insertion sort.

  function Insert(x: Itemset, ys: seq<Itemset>): (r: seq<Itemset>)
    ensures multiset(r) == multiset(ys) + multiset{x}
    decreases |ys|
  {
    if ys == [] then [x]
    else if LexLess(ys[0], x) then
      assert ys == [ys[0]] + ys[1..];
      [ys[0]] + Insert(x, ys[1..])
    else [x] + ys
  }

  lemma {:induction false} InsertSorted(x: Itemset, ys: seq<Itemset>)
    requires SortedStrict(ys) && x !in ys
    ensures SortedStrict(Insert(x, ys))
    decreases |ys|
  {
    if ys != [] {
      if LexLess(ys[0], x) {
        var tail := ys[1..];
        assert SortedStrict(tail);
        InsertSorted(x, tail);
        var rest := Insert(x, tail);
        forall e | e in rest ensures LexLess(ys[0], e) {
          assert e in multiset(rest);
          if e != x {
            assert e in multiset(tail);
            var k :| 0 <= k < |tail| && tail[k] == e;
            assert ys[k + 1] == e;
          }
        }
        SortedConcat([ys[0]], rest);
      } else {
        assert x != ys[0];
        LexTotal(x, ys[0]);
        forall k | 0 <= k < |ys| ensures LexLess(x, ys[k]) {
          if k > 0 { LexTransitive(x, ys[0], ys[k]); }
        }
        SortedConcat([x], ys);
      }
    }
  }

  function Sort(xs: seq<Itemset>): (r: seq<Itemset>)
    ensures multiset(r) == multiset(xs)
  {
    if xs == [] then []
    else
      assert xs == [xs[0]] + xs[1..];
      Insert(xs[0], Sort(xs[1..]))
  }

  /** Sorting a duplicate-free list yields a strictly sorted list with the
      same elements. */
  lemma {:induction false} SortSorted(xs: seq<Itemset>)
    requires Distinct(xs)
    ensures SortedStrict(Sort(xs))
    ensures forall s :: s in Sort(xs) <==> s in xs
  {
    assert forall s :: s in Sort(xs) <==> s in multiset(xs);
    if xs != [] {
      var tail := xs[1..];
      assert Distinct(tail);
      SortSorted(tail);
      assert xs[0] !in tail;
      InsertSorted(xs[0], Sort(tail));
    }
  }
}
