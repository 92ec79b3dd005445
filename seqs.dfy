/** Generic sequence helpers shared by the preprocessor and the view. */
module Seqs {

  datatype Option<T> = None | Some(value: T)

  /** The value of `o` as a sequence of zero or one elements. */
  function ToSeq<T>(o: Option<T>): seq<T> {
    match o
    case Some(y) => [y]
    case None => []
  }

  /** The defined results of `f` over `xs`, in order: a comprehension
      `[y for x in xs if (y := f(x)) is not None]`. */
  function FilterMap<A, B>(xs: seq<A>, f: A -> Option<B>): (ys: seq<B>)
    ensures |ys| <= |xs|
  {
    if xs == [] then []
    else FilterMap(xs[..|xs| - 1], f) + ToSeq(f(xs[|xs| - 1]))
  }

  /** Every result comes from an element of the input. */
  lemma {:induction false} FilterMapFrom<A, B>(xs: seq<A>, f: A -> Option<B>, y: B)
    requires y in FilterMap(xs, f)
    ensures exists x :: x in xs && f(x) == Some(y)
  {
    var init := xs[..|xs| - 1];
    var last := xs[|xs| - 1];
    if y in FilterMap(init, f) {
      FilterMapFrom(init, f, y);
      var x :| x in init && f(x) == Some(y);
      assert x in xs;
    } else {
      assert f(last) == Some(y);
    }
  }

  lemma AppendAssoc<T>(a: seq<T>, b: seq<T>, c: seq<T>)
    ensures a + (b + c) == (a + b) + c
  {
  }

  /** Each element is handled on its own: mapping a concatenation maps the two parts. */
  lemma {:induction false} FilterMapAppend<A, B>(a: seq<A>, b: seq<A>, f: A -> Option<B>)
    ensures FilterMap(a + b, f) == FilterMap(a, f) + FilterMap(b, f)
  {
    if b == [] {
      assert a + b == a;
    } else {
      var b' := b[..|b| - 1];
      var x := b[|b| - 1];
      FilterMapAppend(a, b', f);
      assert (a + b)[..|a + b| - 1] == a + b';
      assert (a + b)[|a + b| - 1] == x;
      calc {
        FilterMap(a + b, f);
        FilterMap(a + b', f) + ToSeq(f(x));
        (FilterMap(a, f) + FilterMap(b', f)) + ToSeq(f(x));
        { AppendAssoc(FilterMap(a, f), FilterMap(b', f), ToSeq(f(x))); }
        FilterMap(a, f) + (FilterMap(b', f) + ToSeq(f(x)));
        FilterMap(a, f) + FilterMap(b, f);
      }
    }
  }

  /** The elements of `xs` satisfying `p`, in order (`xs.filter(p)`). */
  function Filter<T>(xs: seq<T>, p: T -> bool): (ys: seq<T>)
    ensures |ys| <= |xs|
  {
    if xs == [] then []
    else Filter(xs[..|xs| - 1], p) + (if p(xs[|xs| - 1]) then [xs[|xs| - 1]] else [])
  }

  /** An element is kept exactly when it is in the input and satisfies `p`. */
  lemma {:induction false} FilterHas<T>(xs: seq<T>, p: T -> bool, x: T)
    ensures x in Filter(xs, p) <==> x in xs && p(x)
  {
    if xs != [] {
      var init := xs[..|xs| - 1];
      FilterHas(init, p, x);
      assert xs == init + [xs[|xs| - 1]];
    }
  }

  /** Filtering keeps relative order: it distributes over concatenation. */
  lemma {:induction false} FilterAppend<T>(a: seq<T>, b: seq<T>, p: T -> bool)
    ensures Filter(a + b, p) == Filter(a, p) + Filter(b, p)
  {
    if b == [] {
      assert a + b == a;
    } else {
      var b' := b[..|b| - 1];
      var x := b[|b| - 1];
      var tail := if p(x) then [x] else [];
      FilterAppend(a, b', p);
      assert (a + b)[..|a + b| - 1] == a + b';
      assert (a + b)[|a + b| - 1] == x;
      AppendAssoc(Filter(a, p), Filter(b', p), tail);
    }
  }

  /** A filter that every element passes changes nothing. */
  lemma {:induction false} FilterKeepsAll<T>(xs: seq<T>, p: T -> bool)
    requires forall i :: 0 <= i < |xs| ==> p(xs[i])
    ensures Filter(xs, p) == xs
  {
    if xs != [] {
      FilterKeepsAll(xs[..|xs| - 1], p);
    }
  }

  /** Filters whose conditions agree on the elements give the same result. */
  lemma {:induction false} FilterSame<T>(xs: seq<T>, p: T -> bool, q: T -> bool)
    requires forall i :: 0 <= i < |xs| ==> p(xs[i]) == q(xs[i])
    ensures Filter(xs, p) == Filter(xs, q)
  {
    if xs != [] {
      FilterSame(xs[..|xs| - 1], p, q);
    }
  }

  /** Filtering twice keeps the elements that pass both conditions. */
  lemma {:induction false} FilterTwice<T>(xs: seq<T>, p: T -> bool, q: T -> bool, both: T -> bool)
    requires forall i :: 0 <= i < |xs| ==> both(xs[i]) == (p(xs[i]) && q(xs[i]))
    ensures Filter(Filter(xs, p), q) == Filter(xs, both)
  {
    if xs != [] {
      var init := xs[..|xs| - 1];
      var x := xs[|xs| - 1];
      FilterTwice(init, p, q, both);
      FilterAppend(Filter(init, p), if p(x) then [x] else [], q);
    }
  }
}
