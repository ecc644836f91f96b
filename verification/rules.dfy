/** Association rules (`build_association_rules`): for every mined itemset
    `I` and every proper, non-empty combination `A` of its items, the rule
    `A => I - A` with confidence `freq(I) / freq(A)`, kept when the
    confidence reaches the threshold. */
module Rules {
  import opened Wrappers
  import opened Itemsets
  import opened Counting
  import opened Miner

  /** A rule: antecedent tuple, consequent items and the support of the
      itemset it was built from. */
  datatype Rule = Rule(antecedent: Itemset, consequent: set<Item>, support: real)

  /** The exceptions the rule builder can raise: a dictionary lookup of an
      itemset with no entry (`KeyError`), or a division by an entry of 0
      (`ZeroDivisionError`). */
  datatype RuleError = MissingKey(key: Itemset) | ZeroDivision(key: Itemset)

  /** `[x] + c` for every `c` of `cs`, in order. */
  function Prepend(x: Item, cs: seq<Itemset>): (ps: seq<Itemset>)
    ensures |ps| == |cs| && forall i :: 0 <= i < |cs| ==> ps[i] == [x] + cs[i]
  {
    seq(|cs|, i requires 0 <= i < |cs| => [x] + cs[i])
  }

  /** `itertools.combinations(s, r)`: the subsequences of `s` of length `r`,
      chosen by position, in lexicographic order of positions. */
  function Combinations(s: Itemset, r: nat): seq<Itemset>
    decreases |s|
  {
    if r == 0 then [[]]
    else if |s| == 0 then []
    else Prepend(s[0], Combinations(s[1..], r - 1)) + Combinations(s[1..], r)
  }

  /** The binomial coefficient, by Pascal's rule: the number of ways to
      choose `k` of `n` positions (0 when `k > n`). */
  function Choose(n: nat, k: nat): nat
  {
    if k == 0 then 1 else if n == 0 then 0 else Choose(n - 1, k - 1) + Choose(n - 1, k)
  }

  /** There are `Choose(|s|, r)` combinations, none when `r > |s|`, as
      `itertools` documents. */
  lemma CombinationsCount(s: Itemset, r: nat)
    ensures |Combinations(s, r)| == Choose(|s|, r)
    ensures r > |s| ==> Combinations(s, r) == []
  {
    CombinationsLength(s, r);
    if r > |s| { ChooseAbove(|s|, r); }
  }

  lemma {:induction false} CombinationsLength(s: Itemset, r: nat)
    ensures |Combinations(s, r)| == Choose(|s|, r)
    decreases |s|
  {
    if r != 0 && |s| != 0 {
      CombinationsLength(s[1..], r - 1);
      CombinationsLength(s[1..], r);
      CombinationsStep(s, r);
    }
  }

  lemma CombinationsStep(s: Itemset, r: nat)
    requires r != 0 && |s| != 0
    ensures |Combinations(s, r)| == |Combinations(s[1..], r - 1)| + |Combinations(s[1..], r)|
    ensures Choose(|s|, r) == Choose(|s| - 1, r - 1) + Choose(|s| - 1, r)
  {
  }

  lemma {:induction false} ChooseAbove(n: nat, k: nat)
    requires k > n
    ensures Choose(n, k) == 0
  {
    if n > 0 {
      ChooseAbove(n - 1, k - 1);
      ChooseAbove(n - 1, k);
    }
  }

  /** Every combination has `r` items, all drawn from `s`; combinations of
      an ascending itemset are ascending. */
  lemma {:induction false} CombinationsMembers(s: Itemset, r: nat, c: Itemset)
    requires c in Combinations(s, r)
    ensures |c| == r && SubsetOf(c, s)
    ensures Ascending(s) ==> Ascending(c)
    decreases |s|
  {
    if r != 0 && |s| != 0 {
      var rest := s[1..];
      if c in Combinations(rest, r) {
        CombinationsMembers(rest, r, c);
        if Ascending(s) { AscendingTail(s); }
      } else {
        var d := PrependedFrom(s[0], Combinations(rest, r - 1), c);
        CombinationsMembers(rest, r - 1, d);
        ConsMember(s, d, c);
      }
    }
  }

  lemma PrependedFrom(x: Item, cs: seq<Itemset>, c: Itemset) returns (d: Itemset)
    requires c in Prepend(x, cs)
    ensures d in cs && c == [x] + d
  {
    var i :| 0 <= i < |cs| && Prepend(x, cs)[i] == c;
    d := cs[i];
  }

  /** `s[0]` followed by a sub-tuple of the tail is a sub-tuple of `s`,
      ascending when `s` is. */
  lemma ConsMember(s: Itemset, d: Itemset, c: Itemset)
    requires |s| > 0 && c == [s[0]] + d && SubsetOf(d, s[1..])
    requires Ascending(s) ==> Ascending(d)
    ensures SubsetOf(c, s) && (Ascending(s) ==> Ascending(c))
  {
    forall x | x in c ensures x in s {
      if x != s[0] { assert x in d; }
    }
    if Ascending(s) {
      AscendingTail(s);
      forall j | 0 < j < |c| ensures s[0] < c[j] {
        assert c[j] == d[j - 1] && d[j - 1] in s[1..];
      }
    }
  }

  /** Conversely, every ascending `r`-subset of an ascending itemset is one
      of its combinations. */
  lemma {:induction false} CombinationsComplete(s: Itemset, r: nat, c: Itemset)
    requires Ascending(s) && Ascending(c) && |c| == r && SubsetOf(c, s)
    ensures c in Combinations(s, r)
    decreases |s|
  {
    if r == 0 {
      assert c == [];
    } else {
      var x := c[0];
      assert x in c;
      var rest := s[1..];
      AscendingTail(s);
      AscendingTail(c);
      if x == s[0] {
        forall y | y in c[1..] ensures y in rest {
          var k :| 0 <= k < |c[1..]| && c[1..][k] == y;
          assert c[k + 1] == y && y in c && y != s[0];
        }
        CombinationsComplete(rest, r - 1, c[1..]);
        var cs := Combinations(rest, r - 1);
        var i :| 0 <= i < |cs| && cs[i] == c[1..];
        assert c == [s[0]] + c[1..];
        assert Prepend(s[0], cs)[i] == c;
      } else {
        forall y | y in c ensures y in rest {
          var k :| 0 <= k < |c| && c[k] == y;
          assert y >= x;
          var m :| 0 <= m < |s| && s[m] == x;
          assert m > 0;
          assert y != s[0];
        }
        CombinationsComplete(rest, r, c);
      }
    }
  }

  /** The first `r` items are a combination, so there is at least one. */
  lemma {:induction false} PrefixCombination(s: Itemset, r: nat)
    requires r <= |s|
    ensures s[..r] in Combinations(s, r)
    decreases |s|
  {
    if r > 0 {
      PrefixCombination(s[1..], r - 1);
      var cs := Combinations(s[1..], r - 1);
      assert s[1..][..r - 1] == s[1..r];
      PrependMember(s[0], cs, s[1..r]);
      assert s[..r] == [s[0]] + s[1..r];
    }
  }

  lemma PrependMember(x: Item, cs: seq<Itemset>, c: Itemset)
    requires c in cs
    ensures [x] + c in Prepend(x, cs)
  {
    var i :| 0 <= i < |cs| && cs[i] == c;
    assert Prepend(x, cs)[i] == [x] + c;
  }

  /** `A` is one of the antecedents tried for `I`: a combination of `I` of
      size 1 to `|I| - 1`. */
  predicate IsAntecedent(I: Itemset, A: Itemset)
  {
    1 <= |A| < |I| && A in Combinations(I, |A|)
  }

  /** `freq(I) / freq(A)`, computed exactly (the program divides floats). */
  function Confidence(freqI: nat, freqA: nat): (c: real)
    requires freqA > 0
    ensures c * freqA as real == freqI as real
    ensures 0.0 <= c
  {
    freqI as real / freqA as real
  }

  lemma ConfidenceBounds(freqI: nat, freqA: nat)
    requires 0 < freqI <= freqA
    ensures 0.0 < Confidence(freqI, freqA) <= 1.0
  {
    var c := Confidence(freqI, freqA);
    assert c * freqA as real == freqI as real;
    assert (c - 1.0) * freqA as real == freqI as real - freqA as real;
  }

  /** The rule built from `I` and its antecedent `A`. */
  function MakeRule(large: map<Itemset, real>, I: Itemset, A: Itemset): (r: Rule)
    requires I in large
    ensures r.antecedent == A && r.support == large[I]
    ensures r.consequent !! Elems(A)
    ensures SubsetOf(A, I) ==> Elems(A) + r.consequent == Elems(I)
  {
    ElemsOfSubset(A, I);
    Rule(A, Elems(I) - Elems(A), large[I])
  }

  lemma ElemsOfSubset(A: Itemset, I: Itemset)
    ensures SubsetOf(A, I) ==> Elems(A) <= Elems(I)
  {
    if SubsetOf(A, I) {
      forall x | x in Elems(A) ensures x in Elems(I) { assert x in A; }
    }
  }

  /** Every lookup the builder makes for `I` succeeds: `I` itself (looked up
      only when it has an antecedent) and each antecedent, with a non-zero
      count. */
  ghost predicate CoveredAt(counts: map<Itemset, nat>, I: Itemset)
  {
    (|I| >= 2 ==> I in counts) &&
    forall A :: IsAntecedent(I, A) ==> A in counts && counts[A] > 0
  }

  ghost predicate Covered(large: map<Itemset, real>, counts: map<Itemset, nat>)
  {
    forall I :: I in large ==> CoveredAt(counts, I)
  }

  /** The error names a lookup the builder really makes and that really
      fails. */
  ghost predicate ErrorAt(large: map<Itemset, real>, counts: map<Itemset, nat>, e: RuleError)
  {
    match e
    case MissingKey(k) =>
      k !in counts && exists I :: I in large && ((|I| >= 2 && k == I) || IsAntecedent(I, k))
    case ZeroDivision(k) =>
      k in counts && counts[k] == 0 && exists I :: I in large && IsAntecedent(I, k)
  }

  /** `rule` with confidence `conf` comes from `I` and its antecedent `A`. */
  predicate RuleOf(large: map<Itemset, real>, counts: map<Itemset, nat>, I: Itemset, A: Itemset,
                   rule: Rule, conf: real)
  {
    I in large && IsAntecedent(I, A) && I in counts && A in counts && counts[A] > 0 &&
    rule == MakeRule(large, I, A) && conf == Confidence(counts[I], counts[A])
  }

  /** Every rule comes from some mined itemset and antecedent, and its
      confidence reaches `minConf`. */
  ghost predicate RulesSound(large: map<Itemset, real>, counts: map<Itemset, nat>, minConf: real,
                             rules: map<Rule, real>)
  {
    forall rule :: rule in rules ==>
      rules[rule] >= minConf && exists I, A :: RuleOf(large, counts, I, A, rule, rules[rule])
  }

  /** Every antecedent of an itemset of `done` whose confidence reaches
      `minConf` gives a rule. */
  ghost predicate RulesCompleteOn(large: map<Itemset, real>, counts: map<Itemset, nat>, minConf: real,
                            rules: map<Rule, real>, done: set<Itemset>)
  {
    forall I, A ::
      (I in done && I in large && IsAntecedent(I, A) && I in counts && A in counts &&
       counts[A] > 0 && Confidence(counts[I], counts[A]) >= minConf) ==>
      MakeRule(large, I, A) in rules
  }

  lemma SoundUpdate(large: map<Itemset, real>, counts: map<Itemset, nat>, minConf: real,
                    rules: map<Rule, real>, I: Itemset, A: Itemset, conf: real)
    requires RulesSound(large, counts, minConf, rules)
    requires I in large && RuleOf(large, counts, I, A, MakeRule(large, I, A), conf) && conf >= minConf
    ensures RulesSound(large, counts, minConf, rules[MakeRule(large, I, A) := conf])
  {
    var key := MakeRule(large, I, A);
    var next := rules[key := conf];
    forall rule | rule in next
      ensures next[rule] >= minConf && exists I', A' :: RuleOf(large, counts, I', A', rule, next[rule])
    {
      if rule != key {
        var I', A' :| RuleOf(large, counts, I', A', rule, rules[rule]);
        assert RuleOf(large, counts, I', A', rule, next[rule]);
      } else {
        assert RuleOf(large, counts, I, A, rule, next[rule]);
      }
    }
  }

  /** Lines 148-154 for one size `r`: try every antecedent in `combos` (the
      caller passes `itertools.combinations(itemset, r)`), in order, and
      record the rules with enough confidence. */
  method RulesOfSize(large: map<Itemset, real>, counts: map<Itemset, nat>, minConf: real,
                     itemset: Itemset, combos: seq<Itemset>, rules: map<Rule, real>)
    returns (res: Result<map<Rule, real>, RuleError>)
    requires itemset in large && |combos| > 0
    requires forall A :: A in combos ==> IsAntecedent(itemset, A)
    ensures res.Success? <==>
              itemset in counts && forall A :: A in combos ==> A in counts && counts[A] > 0
    ensures res.Failure? ==> ErrorAt(large, counts, res.error)
    ensures res.Success? ==>
              (forall rule :: rule in rules ==> rule in res.value) &&
              (RulesSound(large, counts, minConf, rules) ==> RulesSound(large, counts, minConf, res.value)) &&
              forall A ::
                (A in combos && A in counts && counts[A] > 0 &&
                 Confidence(counts[itemset], counts[A]) >= minConf) ==>
                MakeRule(large, itemset, A) in res.value
  {
    var acc := rules;
    for j := 0 to |combos|
      invariant j > 0 ==> itemset in counts
      invariant forall i :: 0 <= i < j ==> combos[i] in counts && counts[combos[i]] > 0
      invariant forall rule :: rule in rules ==> rule in acc
      invariant RulesSound(large, counts, minConf, rules) ==> RulesSound(large, counts, minConf, acc)
      invariant forall i ::
                  (0 <= i < j && Confidence(counts[itemset], counts[combos[i]]) >= minConf) ==>
                  MakeRule(large, itemset, combos[i]) in acc
    {
      var subset := combos[j];
      var step := TryAntecedent(large, counts, minConf, itemset, subset, acc);
      if step.Failure? {
        return Failure(step.error);
      }
      ghost var conf := Confidence(counts[itemset], counts[subset]);
      if conf >= minConf && RulesSound(large, counts, minConf, rules) {
        SoundUpdate(large, counts, minConf, acc, itemset, subset, conf);
      }
      acc := step.value;
    }
    return Success(acc);
  }

  /** Lines 149-154 for one antecedent: look up both counts, divide, and
      record the rule when its confidence reaches `minConf`. */
  method TryAntecedent(large: map<Itemset, real>, counts: map<Itemset, nat>, minConf: real,
                       itemset: Itemset, subset: Itemset, rules: map<Rule, real>)
    returns (res: Result<map<Rule, real>, RuleError>)
    requires itemset in large && IsAntecedent(itemset, subset)
    ensures res.Success? <==> itemset in counts && subset in counts && counts[subset] > 0
    ensures res.Failure? ==> ErrorAt(large, counts, res.error)
    ensures res.Success? ==>
              var conf := Confidence(counts[itemset], counts[subset]);
              res.value == if conf >= minConf then rules[MakeRule(large, itemset, subset) := conf] else rules
  {
    var supp := large[itemset];
    if itemset !in counts {
      return Failure(MissingKey(itemset));
    }
    if subset !in counts {
      return Failure(MissingKey(subset));
    }
    if counts[subset] == 0 {
      return Failure(ZeroDivision(subset));
    }
    var conf := Confidence(counts[itemset], counts[subset]);
    if conf >= minConf {
      var rest := Elems(itemset) - Elems(subset);
      return Success(rules[Rule(subset, rest, supp) := conf]);
    }
    return Success(rules);
  }

  /** Lines 147-155 for one itemset: try every antecedent, size by size. */
  method RulesFor(large: map<Itemset, real>, counts: map<Itemset, nat>, minConf: real,
                  itemset: Itemset, rules: map<Rule, real>)
    returns (res: Result<map<Rule, real>, RuleError>)
    requires itemset in large
    ensures res.Success? <==> CoveredAt(counts, itemset)
    ensures res.Failure? ==> ErrorAt(large, counts, res.error)
    ensures res.Success? ==>
              (forall rule :: rule in rules ==> rule in res.value) &&
              (RulesSound(large, counts, minConf, rules) ==> RulesSound(large, counts, minConf, res.value)) &&
              RulesCompleteOn(large, counts, minConf, res.value, {itemset})
  {
    var acc := rules;
    var r := 1;
    while r < |itemset|
      invariant 1 <= r && (|itemset| >= 1 ==> r <= |itemset|)
      invariant r > 1 ==> itemset in counts
      invariant forall A :: IsAntecedent(itemset, A) && |A| < r ==> A in counts && counts[A] > 0
      invariant forall rule :: rule in rules ==> rule in acc
      invariant RulesSound(large, counts, minConf, rules) ==> RulesSound(large, counts, minConf, acc)
      invariant forall A ::
                  (IsAntecedent(itemset, A) && |A| < r && A in counts && counts[A] > 0 &&
                   Confidence(counts[itemset], counts[A]) >= minConf) ==>
                  MakeRule(large, itemset, A) in acc
    {
      var combos := Combinations(itemset, r);
      PrefixCombination(itemset, r);
      forall A | A in combos ensures IsAntecedent(itemset, A) {
        CombinationsMembers(itemset, r, A);
      }
      var step := RulesOfSize(large, counts, minConf, itemset, combos, acc);
      if step.Failure? {
        return step;
      }
      forall A | IsAntecedent(itemset, A) && |A| == r
        ensures A in Combinations(itemset, r)
      {
      }
      acc := step.value;
      r := r + 1;
    }
    return Success(acc);
  }

  /** `build_association_rules`: the rule map, or the first failing lookup.
      It succeeds exactly when every lookup it makes succeeds; then it holds
      a rule for each mined itemset and antecedent of enough confidence, and
      nothing else. */
  method BuildAssociationRules(large: map<Itemset, real>, counts: map<Itemset, nat>, minConf: real)
    returns (res: Result<map<Rule, real>, RuleError>)
    ensures res.Success? <==> Covered(large, counts)
    ensures res.Failure? ==> ErrorAt(large, counts, res.error)
    ensures res.Success? ==>
              RulesSound(large, counts, minConf, res.value) &&
              RulesCompleteOn(large, counts, minConf, res.value, large.Keys)
  {
    var rules: map<Rule, real> := map[];
    var keys := large.Keys;
    ghost var done: set<Itemset> := {};
    while keys != {}
      invariant keys <= large.Keys && done == large.Keys - keys
      invariant forall I :: I in done ==> CoveredAt(counts, I)
      invariant RulesSound(large, counts, minConf, rules)
      invariant RulesCompleteOn(large, counts, minConf, rules, done)
      decreases keys
    {
      var itemset :| itemset in keys;
      var step := RulesFor(large, counts, minConf, itemset, rules);
      if step.Failure? {
        return Failure(step.error);
      }
      rules := step.value;
      keys := keys - {itemset};
      done := done + {itemset};
    }
    return Success(rules);
  }

  /** Two ascending itemsets with the same items are equal. */
  lemma {:induction false} AscendingUnique(a: Itemset, b: Itemset)
    requires Ascending(a) && Ascending(b) && Elems(a) == Elems(b)
    ensures a == b
    decreases |a|
  {
    if a == [] {
      if b != [] { ElemsHead(b); }
    } else {
      assert a[0] in Elems(a);
      assert b != [];
      assert b[0] in Elems(b);
      var i :| 0 <= i < |b| && b[i] == a[0];
      var j :| 0 <= j < |a| && a[j] == b[0];
      assert a[0] == b[0];
      AscendingTail(a);
      AscendingTail(b);
      forall x ensures x in Elems(a[1..]) <==> x in Elems(b[1..]) {
        TailElems(a, x);
        TailElems(b, x);
      }
      AscendingUnique(a[1..], b[1..]);
      assert a == [a[0]] + a[1..] && b == [b[0]] + b[1..];
    }
  }

  lemma ElemsHead(s: Itemset)
    requires s != []
    ensures s[0] in Elems(s)
  {
  }

  lemma TailElems(a: Itemset, x: Item)
    requires Ascending(a) && a != []
    ensures x in Elems(a[1..]) <==> x in Elems(a) && x != a[0]
  {
    if x in Elems(a[1..]) {
      var k :| 0 <= k < |a[1..]| && a[1..][k] == x;
      assert a[k + 1] == x;
    }
    if x in Elems(a) && x != a[0] {
      var k :| 0 <= k < |a| && a[k] == x;
      assert a[1..][k - 1] == x;
    }
  }

  /** On the miner's output the builder never fails: every antecedent is
      itself frequent, so it has an entry, and its count is at least 1. */
  lemma MinedCovered(ds: Dataset, minSupp: real, large: map<Itemset, real>, counts: map<Itemset, nat>)
    requires Mined(ds, minSupp, large, counts)
    ensures Covered(large, counts)
  {
    forall I, A | I in large && IsAntecedent(I, A) ensures A in counts && counts[A] > 0 {
      CombinationsMembers(I, |A|, A);
      FrequentSubset(ds, minSupp, I, A);
    }
  }

  /** Confidence never exceeds 1 on the miner's output: an antecedent occurs
      in at least as many rows as the itemset it comes from. */
  lemma ConfidenceAtMostOne(ds: Dataset, minSupp: real, large: map<Itemset, real>, counts: map<Itemset, nat>,
                            I: Itemset, A: Itemset)
    requires Mined(ds, minSupp, large, counts) && I in large && IsAntecedent(I, A)
    ensures I in counts && A in counts && counts[A] > 0
    ensures 0.0 < Confidence(counts[I], counts[A]) <= 1.0
  {
    CombinationsMembers(I, |A|, A);
    FrequentSubset(ds, minSupp, I, A);
    CountAntiMonotone(ds, A, I);
    ConfidenceBounds(counts[I], counts[A]);
  }

  /** On the miner's output each rule is built from exactly one itemset:
      its antecedent is a proper, non-empty part of that itemset, its
      consequent is the non-empty rest, its support is that itemset's
      support, and its confidence is that itemset's count over the
      antecedent's count, between `minConf` and 1. */
  lemma RulesExact(ds: Dataset, minSupp: real, large: map<Itemset, real>, counts: map<Itemset, nat>,
                   minConf: real, rules: map<Rule, real>, I: Itemset, A: Itemset)
    requires Mined(ds, minSupp, large, counts) && RulesSound(large, counts, minConf, rules)
    requires I in large && IsAntecedent(I, A) && MakeRule(large, I, A) in rules
    ensures I in counts && A in counts && counts[A] > 0
    ensures rules[MakeRule(large, I, A)] == Confidence(counts[I], counts[A])
    ensures minConf <= rules[MakeRule(large, I, A)] <= 1.0
    ensures MakeRule(large, I, A).consequent != {} && MakeRule(large, I, A).support >= minSupp
  {
    var rule := MakeRule(large, I, A);
    ConfidenceAtMostOne(ds, minSupp, large, counts, I, A);
    var I', A' :| RuleOf(large, counts, I', A', rule, rules[rule]);
    CombinationsMembers(I, |A|, A);
    CombinationsMembers(I', |A'|, A');
    assert A' == A;
    forall x ensures x in Elems(I) <==> x in Elems(I') {
      if x in Elems(A) {
        assert x in A;
      } else {
        assert x in Elems(I) - Elems(A) <==> x in Elems(I') - Elems(A);
      }
    }
    AscendingUnique(I, I');
    if Elems(I) - Elems(A) == {} {
      SubsetElems(A, I);
      AscendingUnique(I, A);
    }
  }

  lemma SubsetElems(A: Itemset, I: Itemset)
    requires SubsetOf(A, I) && Elems(I) - Elems(A) == {}
    ensures Elems(I) == Elems(A)
  {
    forall x | x in Elems(A) ensures x in Elems(I) {
      assert x in A;
    }
    forall x | x in Elems(I) ensures x in Elems(A) {
      assert x !in Elems(I) - Elems(A);
    }
  }
}
