/** `Counter.most_common()` and `most_common(TOP_N)`: the counted keys ordered
    by non-increasing count. Python sorts stably, so keys with equal counts
    keep their first-counted order; the model sorts the same way, but the
    properties below claim only the count order. */
module Ranking {
  import opened Counters

  /** How many TFs the summary keeps. */
  const TopN: nat := 40

  /** Counts never increase along `ks`. */
  ghost predicate NonIncreasing(c: Counter, ks: seq<string>) {
    forall i, j :: 0 <= i < j < |ks| ==> Get(c, ks[i]) >= Get(c, ks[j])
  }

  /** Places `k` after every key of `ks` whose count is at least its own. */
  function Insert(c: Counter, ks: seq<string>, k: string): (r: seq<string>)
    ensures multiset(r) == multiset(ks) + multiset{k}
    ensures |r| == |ks| + 1
  {
    if ks == [] then [k]
    else if Get(c, ks[|ks| - 1]) >= Get(c, k) then ks + [k]
    else
      var init := ks[..|ks| - 1];
      assert ks == init + [ks[|ks| - 1]];
      Insert(c, init, k) + [ks[|ks| - 1]]
  }

  /** Sorts `ks` by non-increasing count, one insertion at a time. */
  function SortByCount(c: Counter, ks: seq<string>): (r: seq<string>)
    ensures multiset(r) == multiset(ks)
    ensures |r| == |ks|
  {
    if ks == [] then []
    else
      var init := ks[..|ks| - 1];
      assert ks == init + [ks[|ks| - 1]];
      Insert(c, SortByCount(c, init), ks[|ks| - 1])
  }

  /** Inserting into a count-ordered sequence keeps it count-ordered. */
  lemma {:induction false} InsertOrdered(c: Counter, ks: seq<string>, k: string)
    requires NonIncreasing(c, ks)
    ensures NonIncreasing(c, Insert(c, ks, k))
  {
    if ks != [] && Get(c, ks[|ks| - 1]) < Get(c, k) {
      var init := ks[..|ks| - 1];
      var last := ks[|ks| - 1];
      InsertOrdered(c, init, k);
      var r := Insert(c, init, k);
      forall i | 0 <= i < |r| ensures Get(c, r[i]) >= Get(c, last) {
        assert r[i] in multiset(init) + multiset{k};
        if r[i] != k {
          var p :| 0 <= p < |init| && init[p] == r[i];
          assert ks[p] == r[i];
        }
      }
      assert Insert(c, ks, k) == r + [last];
    }
  }

  lemma {:induction false} SortOrdered(c: Counter, ks: seq<string>)
    ensures NonIncreasing(c, SortByCount(c, ks))
  {
    if ks != [] {
      SortOrdered(c, ks[..|ks| - 1]);
      InsertOrdered(c, SortByCount(c, ks[..|ks| - 1]), ks[|ks| - 1]);
    }
  }

  /** `[k for k, _ in counter.most_common()]`. */
  function MostCommon(c: Counter): seq<string> {
    SortByCount(c, c.order)
  }

  /** `[k for k, _ in counter.most_common(TOP_N)]`: the first `TopN` of the ranking. */
  function MostCommonTop(c: Counter): seq<string> {
    var ranked := MostCommon(c);
    if |ranked| <= TopN then ranked else ranked[..TopN]
  }

  /** The ranking lists every counted key once, by non-increasing count. */
  lemma MostCommonSpec(c: Counter)
    requires ValidCounter(c)
    ensures multiset(MostCommon(c)) == multiset(c.order)
    ensures Distinct(MostCommon(c))
    ensures forall k :: k in MostCommon(c) <==> k in c.count
    ensures NonIncreasing(c, MostCommon(c))
  {
    SortOrdered(c, c.order);
    PermutationDistinct(c.order, MostCommon(c));
    forall k ensures k in MostCommon(c) <==> k in c.order {
      assert k in MostCommon(c) <==> k in multiset(MostCommon(c));
    }
  }

  /** The top keys are `TopN` counted keys, or all of them when there are fewer, each once, by
      non-increasing count, and no key left out was counted more often than
      any key kept. */
  lemma MostCommonTopSpec(c: Counter)
    requires ValidCounter(c)
    ensures |MostCommonTop(c)| == if |c.order| <= TopN then |c.order| else TopN
    ensures Distinct(MostCommonTop(c)) && NonIncreasing(c, MostCommonTop(c))
    ensures forall k :: k in MostCommonTop(c) ==> k in c.count
    ensures forall k, j :: k in MostCommonTop(c) && j in c.count && j !in MostCommonTop(c) ==>
                           Get(c, j) <= Get(c, k)
  {
    var ranked := MostCommon(c);
    MostCommonSpec(c);
    var n := if |ranked| <= TopN then |ranked| else TopN;
    assert MostCommonTop(c) == ranked[..n];
    PrefixOfRanking(c, ranked, n);
  }

  /** A prefix of a count-ordered list without repetitions is one too, and
      outranks everything after it. */
  lemma PrefixOfRanking(c: Counter, ranked: seq<string>, n: nat)
    requires Distinct(ranked) && NonIncreasing(c, ranked) && n <= |ranked|
    ensures Distinct(ranked[..n]) && NonIncreasing(c, ranked[..n])
    ensures forall k, j :: k in ranked[..n] && j in ranked && j !in ranked[..n] ==>
                           Get(c, j) <= Get(c, k)
  {
    var top := ranked[..n];
    forall k, j | k in top && j in ranked && j !in top ensures Get(c, j) <= Get(c, k) {
      var a :| 0 <= a < n && top[a] == k;
      var b :| 0 <= b < |ranked| && ranked[b] == j;
    }
  }

  /** Ranking the keys of a counted sequence lists each of its elements once,
      by non-increasing number of occurrences. */
  lemma MostCommonOf(ks: seq<string>)
    ensures var r := MostCommon(CounterOf(ks));
            && Distinct(r)
            && (forall k :: k in r <==> k in ks)
            && (forall a, b :: 0 <= a < b < |r| ==> multiset(ks)[r[a]] >= multiset(ks)[r[b]])
  {
    var c := CounterOf(ks);
    CounterOfSpec(ks);
    CounterOfKeys(ks);
    MostCommonSpec(c);
  }

  /** The top of the ranking of a counted sequence: `TopN` of its different
      elements, or all of them when there are fewer, each once, by non-increasing number of occurrences, none left
      out occurring more often than one kept. */
  lemma MostCommonTopOf(ks: seq<string>)
    ensures var r, d := MostCommonTop(CounterOf(ks)), |set k | k in ks|;
            && |r| == (if d <= TopN then d else TopN) && Distinct(r)
            && (forall k :: k in r ==> k in ks)
            && (forall a, b :: 0 <= a < b < |r| ==> multiset(ks)[r[a]] >= multiset(ks)[r[b]])
            && (forall k, j :: k in r && j in ks && j !in r ==> multiset(ks)[j] <= multiset(ks)[k])
  {
    var c := CounterOf(ks);
    CounterOfSpec(ks);
    CounterOfKeys(ks);
    CounterOfOrderSize(ks);
    MostCommonTopSpec(c);
  }
}
