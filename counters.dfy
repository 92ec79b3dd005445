/** Python's `collections.Counter` as the preprocessor uses it: a count per
    key, missing keys reading as 0, and the keys remembered in the order they
    were first counted (a `Counter` is a `dict`). */
module Counters {

  datatype Counter = Counter(order: seq<string>, count: map<string, nat>)

  function EmptyCounter(): Counter {
    Counter([], map[])
  }

  /** `counter[k]`: 0 for a key never counted. */
  function Get(c: Counter, k: string): nat {
    if k in c.count then c.count[k] else 0
  }

  /** No key occurs twice. */
  predicate Distinct(xs: seq<string>) {
    forall i, j :: 0 <= i < j < |xs| ==> xs[i] != xs[j]
  }

  /** The keys in `order` are those with a count, each once, and every
      recorded count is positive. */
  ghost predicate ValidCounter(c: Counter) {
    && Distinct(c.order)
    && (forall k :: k in c.count <==> k in c.order)
    && (forall k :: k in c.count ==> c.count[k] > 0)
  }

  /** `counter[k] += 1`: a new key is appended to the key order. */
  function Inc(c: Counter, k: string): (r: Counter)
    ensures Get(r, k) == Get(c, k) + 1
    ensures forall j :: j != k ==> Get(r, j) == Get(c, j)
    ensures ValidCounter(c) ==> ValidCounter(r)
    ensures k in c.count ==> r.order == c.order
    ensures k !in c.count ==> r.order == c.order + [k]
  {
    if k in c.count then c.(count := c.count[k := c.count[k] + 1])
    else Counter(c.order + [k], c.count[k := 1])
  }

  /** The counter obtained by counting `ks` one after the other. */
  function CounterOf(ks: seq<string>): Counter {
    if ks == [] then EmptyCounter() else Inc(CounterOf(ks[..|ks| - 1]), ks[|ks| - 1])
  }

  /** Counting one more key. */
  lemma CounterOfSnoc(ks: seq<string>, k: string)
    ensures CounterOf(ks + [k]) == Inc(CounterOf(ks), k)
  {
    assert (ks + [k])[..|ks|] == ks;
  }

  /** Counting a sequence gives a well-formed counter whose count of every key
      is its number of occurrences. */
  lemma {:induction false} CounterOfSpec(ks: seq<string>)
    ensures ValidCounter(CounterOf(ks))
    ensures forall k :: Get(CounterOf(ks), k) == multiset(ks)[k]
  {
    if ks != [] {
      var init := ks[..|ks| - 1];
      CounterOfSpec(init);
      assert ks == init + [ks[|ks| - 1]];
    }
  }

  /** The keys of a counted sequence are exactly its elements. */
  lemma CounterOfKeys(ks: seq<string>)
    ensures forall k :: k in CounterOf(ks).order <==> k in ks
  {
    CounterOfSpec(ks);
  }

  /** Counting two stretches one after the other adds their counts. */
  lemma CounterOfAppend(a: seq<string>, b: seq<string>)
    ensures forall k :: Get(CounterOf(a + b), k) == Get(CounterOf(a), k) + Get(CounterOf(b), k)
  {
    CounterOfSpec(a);
    CounterOfSpec(b);
    CounterOfSpec(a + b);
  }

  /** A sequence without repetitions holds each element at most once. */
  lemma {:induction false} DistinctOnce(xs: seq<string>, x: string)
    requires Distinct(xs)
    ensures multiset(xs)[x] <= 1
  {
    if xs != [] {
      var init := xs[..|xs| - 1];
      DistinctOnce(init, x);
      assert xs == init + [xs[|xs| - 1]];
      if x == xs[|xs| - 1] {
        assert x !in init;
      }
    }
  }

  /** A sequence without repetitions has as many elements as it has
      different elements. */
  lemma {:induction false} DistinctCard(xs: seq<string>)
    requires Distinct(xs)
    ensures |set x | x in xs| == |xs|
  {
    if xs != [] {
      var init, last := xs[..|xs| - 1], xs[|xs| - 1];
      DistinctCard(init);
      assert (set x | x in xs) == (set x | x in init) + {last};
      assert last !in (set x | x in init);
    }
  }

  /** The key order of a counted sequence lists each different element once. */
  lemma CounterOfOrderSize(ks: seq<string>)
    ensures |CounterOf(ks).order| == |set k | k in ks|
  {
    CounterOfSpec(ks);
    CounterOfKeys(ks);
    DistinctCard(CounterOf(ks).order);
    assert (set k | k in CounterOf(ks).order) == (set k | k in ks);
  }

  /** Rearranging a sequence without repetitions keeps it without repetitions. */
  lemma PermutationDistinct(a: seq<string>, b: seq<string>)
    requires multiset(a) == multiset(b) && Distinct(a)
    ensures Distinct(b)
  {
    forall i, j | 0 <= i < j < |b| ensures b[i] != b[j] {
      if b[i] == b[j] {
        var x := b[i];
        assert b == b[..j] + [x] + b[j + 1..];
        assert x in b[..j];
        assert multiset(b)[x] >= 2;
        DistinctOnce(a, x);
        assert false;
      }
    }
  }
}
