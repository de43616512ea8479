/** Value types shared by every module: JavaScript's null/undefined, thrown errors
    and JSON leaves, plus the few array helpers (`find`, `filter`, counting) the
    scripts rely on. */
module Values {

  /** `None` stands for JavaScript's `null` or `undefined`. */
  datatype Option<+T> = None | Some(value: T) {
    function GetOr(default: T): T {
      match this
      case Some(v) => v
      case None => default
    }
  }

  /** `Err` stands for a rejected promise or an exception that escapes the call. */
  datatype Result<+T, +E> = Ok(value: T) | Err(error: E) {
    predicate IsFailure() {
      Err?
    }

    function PropagateFailure<U>(): Result<U, E>
      requires Err?
    {
      Err(error)
    }

    function Extract(): T
      requires Ok?
    {
      value
    }
  }

  /** A step that either returns normally or throws. */
  datatype Outcome = Pass | Threw(message: string)

  /** A JSON leaf whose type the code inspects: missing (or null), a string, or
      any other value (number, boolean, object), with its JavaScript truthiness. */
  datatype Scalar = Absent | Text(s: string) | NonText(truthy: bool)

  /** JavaScript truthiness of an optional string. */
  predicate Truthy(o: Option<string>) {
    o.Some? && o.value != ""
  }

  /** JavaScript `o || fallback` for optional strings. */
  function OrElse(o: Option<string>, fallback: Option<string>): (r: Option<string>)
    ensures Truthy(o) ==> r == o
    ensures !Truthy(o) ==> r == fallback
  {
    if Truthy(o) then o else fallback
  }

  function Min(a: int, b: int): int {
    if a <= b then a else b
  }

  /** `Array.prototype.findIndex`: the first index whose element satisfies `p`, or -1. */
  function FindFirst<T>(xs: seq<T>, p: T -> bool): (r: int)
    ensures -1 <= r < |xs|
    ensures r >= 0 ==> p(xs[r])
    ensures r >= 0 ==> forall j :: 0 <= j < r ==> !p(xs[j])
    ensures r == -1 <==> forall j :: 0 <= j < |xs| ==> !p(xs[j])
  {
    if |xs| == 0 then -1
    else if p(xs[0]) then 0
    else
      var k := FindFirst(xs[1..], p);
      if k < 0 then -1 else k + 1
  }

  /** `Array.prototype.some`. */
  predicate Any<T>(xs: seq<T>, p: T -> bool) {
    FindFirst(xs, p) >= 0
  }

  /** `Array.prototype.filter`: the elements satisfying `p`, in order. */
  function Filter<T>(xs: seq<T>, p: T -> bool): (r: seq<T>)
    ensures |r| <= |xs|
    ensures forall k :: 0 <= k < |r| ==> r[k] in xs && p(r[k])
    ensures forall k :: 0 <= k < |xs| && p(xs[k]) ==> xs[k] in r
    ensures multiset(r) <= multiset(xs)
  {
    if |xs| == 0 then []
    else
      assert xs == [xs[0]] + xs[1..];
      if p(xs[0]) then [xs[0]] + Filter(xs[1..], p)
      else Filter(xs[1..], p)
  }

  /** The first element `filter` keeps is the one `findIndex` finds. */
  lemma {:induction false} FilterFirst<T>(xs: seq<T>, p: T -> bool)
    ensures |Filter(xs, p)| > 0 <==> FindFirst(xs, p) >= 0
    ensures |Filter(xs, p)| > 0 ==> Filter(xs, p)[0] == xs[FindFirst(xs, p)]
    decreases |xs|
  {
    if |xs| > 0 && !p(xs[0]) {
      FilterFirst(xs[1..], p);
    }
  }

  /** Filtering distributes over concatenation; with `Filter([x], p)` this pins
      down the listing order of the result. */
  lemma {:induction false} FilterAppend<T>(xs: seq<T>, ys: seq<T>, p: T -> bool)
    ensures Filter(xs + ys, p) == Filter(xs, p) + Filter(ys, p)
    decreases |xs|
  {
    if |xs| == 0 {
      assert xs + ys == ys;
    } else {
      assert (xs + ys)[1..] == xs[1..] + ys;
      FilterAppend(xs[1..], ys, p);
    }
  }

  /** Filtering by a predicate and by its negation splits the elements between
      the two results. */
  lemma {:induction false} FilterPartition<T>(xs: seq<T>, p: T -> bool, q: T -> bool)
    requires forall x :: q(x) == !p(x)
    ensures multiset(Filter(xs, p)) + multiset(Filter(xs, q)) == multiset(xs)
    decreases |xs|
  {
    if |xs| > 0 {
      FilterPartition(xs[1..], p, q);
      assert xs == [xs[0]] + xs[1..];
    }
  }

  /** Filtering keeps every occurrence of a kept value and none of a dropped one. */
  lemma {:induction false} FilterMultiplicity<T>(xs: seq<T>, p: T -> bool, x: T)
    ensures multiset(Filter(xs, p))[x] == if p(x) then multiset(xs)[x] else 0
    decreases |xs|
  {
    if |xs| > 0 {
      FilterMultiplicity(xs[1..], p, x);
      assert xs == [xs[0]] + xs[1..];
    }
  }

  /** Filtering twice is filtering once by the conjunction. */
  lemma {:induction false} FilterFilter<T>(xs: seq<T>, p: T -> bool, q: T -> bool, both: T -> bool)
    requires forall x :: both(x) == (p(x) && q(x))
    ensures Filter(Filter(xs, p), q) == Filter(xs, both)
    decreases |xs|
  {
    if |xs| > 0 {
      FilterFilter(xs[1..], p, q, both);
    }
  }

  /** Number of elements satisfying `p` (`xs.filter(p).length`). */
  function Count<T>(xs: seq<T>, p: T -> bool): (n: nat)
    ensures n <= |xs|
  {
    if |xs| == 0 then 0
    else (if p(xs[0]) then 1 else 0) + Count(xs[1..], p)
  }

  lemma {:induction false} CountIsFilterLength<T>(xs: seq<T>, p: T -> bool)
    ensures Count(xs, p) == |Filter(xs, p)|
    decreases |xs|
  {
    if |xs| > 0 {
      CountIsFilterLength(xs[1..], p);
    }
  }

  lemma {:induction false} CountAppend<T>(xs: seq<T>, ys: seq<T>, p: T -> bool)
    ensures Count(xs + ys, p) == Count(xs, p) + Count(ys, p)
    decreases |xs|
  {
    if |xs| == 0 {
      assert xs + ys == ys;
    } else {
      assert (xs + ys)[1..] == xs[1..] + ys;
      CountAppend(xs[1..], ys, p);
    }
  }

  /** No element occurs twice. */
  predicate NoDuplicates<T(==)>(xs: seq<T>) {
    forall i, j :: 0 <= i < j < |xs| ==> xs[i] != xs[j]
  }
}
