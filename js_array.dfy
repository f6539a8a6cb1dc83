/**
 * The Array.prototype methods the task code chains: `map` (whose callback
 * receives the element and its index, and may throw) and the
 * `filter(x => x !== null)` that follows it.
 */
module JsArray {
  import opened Wrappers

  /** A callback's result, or the TypeError it threw. */
  datatype Outcome<T> = Done(value: T) | TypeError

  /** `xs.map(f)` for a callback that cannot throw. */
  function MapIndexed<A, B>(xs: seq<A>, f: (A, nat) -> B): (r: seq<B>)
    ensures |r| == |xs| && forall i :: 0 <= i < |xs| ==> r[i] == f(xs[i], i)
  {
    seq(|xs|, i requires 0 <= i < |xs| => f(xs[i], i))
  }

  /** `filter(x => x !== null)`: the present values, in order. */
  function FilterSome<B>(xs: seq<Option<B>>): (r: seq<B>)
    ensures |r| <= |xs|
  {
    if xs == [] then []
    else (if xs[0].Some? then [xs[0].value] else []) + FilterSome(xs[1..])
  }

  /** Each value kept by the filter is present in its input. */
  lemma {:induction false} FilterSomeMembers<B>(xs: seq<Option<B>>)
    ensures forall j :: 0 <= j < |FilterSome(xs)| ==> Some(FilterSome(xs)[j]) in xs
  {
    if xs != [] {
      FilterSomeMembers(xs[1..]);
      var r := FilterSome(xs);
      forall j | 0 <= j < |r|
        ensures Some(r[j]) in xs
      {
        if xs[0].Some? && j == 0 {
        } else {
          var k := if xs[0].Some? then j - 1 else j;
          assert r[j] == FilterSome(xs[1..])[k];
        }
      }
    }
  }

  /** Every present value of the input is kept. */
  lemma {:induction false} FilterSomeKeeps<B>(xs: seq<Option<B>>, i: nat)
    requires i < |xs| && xs[i].Some?
    ensures xs[i].value in FilterSome(xs)
  {
    if i > 0 {
      assert xs[1..][i - 1] == xs[i];
      FilterSomeKeeps(xs[1..], i - 1);
    }
  }

  /** A list with no null entries passes the filter whole. */
  lemma {:induction false} FilterSomeAllPresent<B>(xs: seq<Option<B>>, ys: seq<B>)
    requires |xs| == |ys| && forall j :: 0 <= j < |xs| ==> xs[j] == Some(ys[j])
    ensures FilterSome(xs) == ys
  {
    if xs != [] {
      FilterSomeAllPresent(xs[1..], ys[1..]);
    }
  }

  /** If f, applied at any position to what `back` makes of a value f
      produced, gives that value again, then `map(f).filter(non-null)` is
      idempotent: mapping the kept values back and filtering again gives the
      same list. */
  lemma FilterMapIdempotent<A, B>(xs: seq<A>, f: (A, nat) -> Option<B>, g: (A, nat) -> Option<B>, back: (B, nat) -> A)
    requires forall i, k, m :: 0 <= i < |xs| && f(xs[i], i).Some? ==> g(back(f(xs[i], i).value, m), k) == f(xs[i], i)
    ensures FilterSome(MapIndexed(MapIndexed(FilterSome(MapIndexed(xs, f)), back), g)) == FilterSome(MapIndexed(xs, f))
  {
    var ms := MapIndexed(xs, f);
    var ys := FilterSome(ms);
    FilterSomeMembers(ms);
    var zs := MapIndexed(MapIndexed(ys, back), g);
    forall j | 0 <= j < |ys|
      ensures zs[j] == Some(ys[j])
    {
      var i :| 0 <= i < |ms| && ms[i] == Some(ys[j]);
      assert f(xs[i], i) == Some(ys[j]);
    }
    FilterSomeAllPresent(zs, ys);
  }

  /** `xs.map(f)` from position i on, for a callback that may throw: the
      first throw ends the map. */
  function MapThrowing<A, B>(xs: seq<A>, i: nat, f: (A, nat) -> Outcome<B>): (r: Outcome<seq<B>>)
    requires i <= |xs|
    ensures r.Done? ==> |r.value| == |xs| - i
    decreases |xs| - i
  {
    if i == |xs| then Done([])
    else
      match f(xs[i], i)
      case TypeError => TypeError
      case Done(y) =>
        match MapThrowing(xs, i + 1, f)
        case TypeError => TypeError
        case Done(rest) => Done([y] + rest)
  }

  /** The map throws exactly when the callback throws at some position;
      otherwise it holds the callback's value at each position. */
  lemma {:induction false} MapThrowingPositions<A, B>(xs: seq<A>, i: nat, f: (A, nat) -> Outcome<B>)
    requires i <= |xs|
    ensures MapThrowing(xs, i, f).TypeError? <==> exists k :: i <= k < |xs| && f(xs[k], k).TypeError?
    ensures MapThrowing(xs, i, f).Done? ==>
              forall k :: i <= k < |xs| ==> f(xs[k], k) == Done(MapThrowing(xs, i, f).value[k - i])
    decreases |xs| - i
  {
    if i < |xs| {
      MapThrowingPositions(xs, i + 1, f);
    }
  }

  /** Array.prototype.map, element by element. */
  method Map<A, B>(xs: seq<A>, f: (A, nat) -> Outcome<B>) returns (r: Outcome<seq<B>>)
    ensures r == MapThrowing(xs, 0, f)
  {
    var out: seq<B> := [];
    var i := 0;
    while i < |xs|
      invariant 0 <= i <= |xs| && |out| == i
      invariant MapThrowing(xs, 0, f).TypeError? <==> MapThrowing(xs, i, f).TypeError?
      invariant MapThrowing(xs, i, f).Done? ==> MapThrowing(xs, 0, f).value == out + MapThrowing(xs, i, f).value
    {
      var o := f(xs[i], i);
      if o.TypeError? {
        return TypeError;
      }
      MapThrowingStep(xs, i, f, o.value);
      if MapThrowing(xs, i + 1, f).Done? {
        SeqAssoc(out, [o.value], MapThrowing(xs, i + 1, f).value);
      }
      out := out + [o.value];
      i := i + 1;
    }
    assert out + [] == out;
    r := Done(out);
  }

  /** One step of MapThrowing past a callback that returned y. */
  lemma MapThrowingStep<A, B>(xs: seq<A>, i: nat, f: (A, nat) -> Outcome<B>, y: B)
    requires i < |xs| && f(xs[i], i) == Done(y)
    ensures MapThrowing(xs, i, f).TypeError? <==> MapThrowing(xs, i + 1, f).TypeError?
    ensures MapThrowing(xs, i + 1, f).Done? ==>
      MapThrowing(xs, i, f).value == [y] + MapThrowing(xs, i + 1, f).value
  {
  }

  lemma SeqAssoc<T>(a: seq<T>, b: seq<T>, c: seq<T>)
    ensures (a + b) + c == a + (b + c)
  {
  }

  /** `xs.filter(p)`: the elements p accepts, in their order. */
  function Filter<T(!new)>(xs: seq<T>, p: T -> bool): (r: seq<T>)
    ensures |r| <= |xs|
    ensures forall x :: x in r <==> x in xs && p(x)
  {
    if xs == [] then []
    else (if p(xs[0]) then [xs[0]] else []) + Filter(xs[1..], p)
  }

  /** The filter keeps its input's order: two kept elements come from two
      positions of the input in the same order. */
  lemma {:induction false} FilterOrder<T(!new)>(xs: seq<T>, p: T -> bool, i: int, j: int) returns (a: int, b: int)
    requires 0 <= i < j < |Filter(xs, p)|
    ensures 0 <= a < b < |xs| && xs[a] == Filter(xs, p)[i] && xs[b] == Filter(xs, p)[j]
  {
    var rest := Filter(xs[1..], p);
    if p(xs[0]) {
      assert Filter(xs, p) == [xs[0]] + rest;
      if i == 0 {
        var k := IndexIn(xs[1..], rest[j - 1]);
        a, b := 0, k + 1;
      } else {
        var a', b' := FilterOrder(xs[1..], p, i - 1, j - 1);
        a, b := a' + 1, b' + 1;
      }
    } else {
      assert Filter(xs, p) == rest;
      var a', b' := FilterOrder(xs[1..], p, i, j);
      a, b := a' + 1, b' + 1;
    }
  }

  /** A position of an element of xs. */
  lemma IndexIn<T>(xs: seq<T>, x: T) returns (k: int)
    requires x in xs
    ensures 0 <= k < |xs| && xs[k] == x
  {
    k :| 0 <= k < |xs| && xs[k] == x;
  }

  /** The filter adds and duplicates nothing: its multiset lies within the
      input's. */
  lemma {:induction false} FilterSubMultiset<T(!new)>(xs: seq<T>, p: T -> bool)
    ensures multiset(Filter(xs, p)) <= multiset(xs)
  {
    if xs != [] {
      FilterSubMultiset(xs[1..], p);
      assert xs == [xs[0]] + xs[1..];
    }
  }

  /** A filter that accepts everything keeps the whole list. */
  lemma {:induction false} FilterAll<T(!new)>(xs: seq<T>, p: T -> bool)
    requires forall x :: x in xs ==> p(x)
    ensures Filter(xs, p) == xs
  {
    if xs != [] {
      FilterAll(xs[1..], p);
      assert xs == [xs[0]] + xs[1..];
    }
  }

  /** A filter that rejects everything keeps nothing. */
  lemma {:induction false} FilterNone<T(!new)>(xs: seq<T>, p: T -> bool)
    requires forall j :: 0 <= j < |xs| ==> !p(xs[j])
    ensures Filter(xs, p) == []
  {
    if xs != [] {
      assert forall j :: 0 <= j < |xs[1..]| ==> xs[1..][j] == xs[j + 1];
      FilterNone(xs[1..], p);
    }
  }

  /** A filter that accepts exactly one position keeps just that element. */
  lemma {:induction false} FilterSingle<T(!new)>(xs: seq<T>, p: T -> bool, i: int)
    requires 0 <= i < |xs| && p(xs[i])
    requires forall j :: 0 <= j < |xs| && j != i ==> !p(xs[j])
    ensures Filter(xs, p) == [xs[i]]
  {
    assert forall j :: 0 <= j < |xs[1..]| ==> xs[1..][j] == xs[j + 1];
    if i == 0 {
      FilterNone(xs[1..], p);
    } else {
      FilterSingle(xs[1..], p, i - 1);
    }
  }
}
