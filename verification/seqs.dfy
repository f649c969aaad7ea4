/** Sequence operations the source writes with `Array.prototype` methods. */
module Seqs {
  import opened Wrappers

  /** `xs.filter(p)`: the elements satisfying `p`, in their original order. */
  function Filter<T(==)>(xs: seq<T>, p: T -> bool): (r: seq<T>)
    ensures |r| <= |xs|
    ensures forall i :: 0 <= i < |r| ==> r[i] in xs && p(r[i])
    ensures forall i :: 0 <= i < |xs| && p(xs[i]) ==> xs[i] in r
  {
    if |xs| == 0 then []
    else if p(xs[0]) then [xs[0]] + Filter(xs[1..], p)
    else Filter(xs[1..], p)
  }

  /** `xs.map(f)`. */
  function Map<T, U>(xs: seq<T>, f: T -> U): (r: seq<U>)
    ensures |r| == |xs|
    ensures forall i :: 0 <= i < |xs| ==> r[i] == f(xs[i])
  {
    if |xs| == 0 then [] else [f(xs[0])] + Map(xs[1..], f)
  }

  /** `a` can be obtained from `b` by deleting elements (order is kept). */
  predicate IsSubsequence<T(==)>(a: seq<T>, b: seq<T>)
    decreases |b|
  {
    if |a| == 0 then true
    else if |b| == 0 then false
    else if a[0] == b[0] then IsSubsequence(a[1..], b[1..])
    else IsSubsequence(a, b[1..])
  }

  lemma {:induction false} FilterIsSubsequence<T>(xs: seq<T>, p: T -> bool)
    ensures IsSubsequence(Filter(xs, p), xs)
    decreases |xs|
  {
    if |xs| > 0 {
      FilterIsSubsequence(xs[1..], p);
      if p(xs[0]) {
        assert Filter(xs, p)[1..] == Filter(xs[1..], p);
      } else {
        SubsequenceDropHead(Filter(xs[1..], p), xs);
      }
    }
  }

  /** Extending the longer sequence at the front keeps the relation. */
  lemma {:induction false} SubsequenceDropHead<T>(a: seq<T>, b: seq<T>)
    requires |b| > 0
    requires IsSubsequence(a, b[1..])
    ensures IsSubsequence(a, b)
    decreases |b|, 0
  {
    if |a| > 0 && a[0] == b[0] {
      // a[1..] is a subsequence of b[1..] because a is one of b[1..] and
      // dropping a head of the shorter side keeps the relation.
      SubsequenceTail(a, b[1..]);
    }
  }

  lemma {:induction false} SubsequenceTail<T>(a: seq<T>, b: seq<T>)
    requires |a| > 0
    requires IsSubsequence(a, b)
    ensures IsSubsequence(a[1..], b)
    decreases |b|, 1
  {
    if a[0] == b[0] {
      if |a[1..]| > 0 {
        SubsequenceDropHead(a[1..], b);
      }
    } else {
      SubsequenceTail(a, b[1..]);
      if |a[1..]| > 0 {
        SubsequenceDropHead(a[1..], b);
      }
    }
  }

  /** Filtering keeps exactly the multiset of elements satisfying `p`. */
  lemma {:induction false} FilterMultiset<T>(xs: seq<T>, p: T -> bool, x: T)
    ensures multiset(Filter(xs, p))[x] == if p(x) then multiset(xs)[x] else 0
    decreases |xs|
  {
    if |xs| > 0 {
      FilterMultiset(xs[1..], p, x);
      assert xs == [xs[0]] + xs[1..];
    }
  }

  /** Filtering twice with the same predicate is filtering once. */
  lemma {:induction false} FilterIdempotent<T>(xs: seq<T>, p: T -> bool)
    ensures Filter(Filter(xs, p), p) == Filter(xs, p)
    decreases |xs|
  {
    if |xs| > 0 {
      FilterIdempotent(xs[1..], p);
    }
  }

  /** The number of elements satisfying `p`. */
  function Count<T(==)>(xs: seq<T>, p: T -> bool): nat
  {
    |Filter(xs, p)|
  }

  /** Counting splits over a case distinction on a second predicate. */
  lemma {:induction false} CountSplit<T>(xs: seq<T>, p: T -> bool, q: T -> bool)
    ensures Count(xs, p) == Count(xs, x => p(x) && q(x)) + Count(xs, x => p(x) && !q(x))
    decreases |xs|
  {
    if |xs| > 0 {
      CountSplit(xs[1..], p, q);
    }
  }

  /** `xs.filter((_, i) => i !== index)`: every element except position `index`. */
  function RemoveAt<T>(xs: seq<T>, index: int): (r: seq<T>)
    ensures 0 <= index < |xs| ==> |r| == |xs| - 1
    ensures !(0 <= index < |xs|) ==> r == xs
    ensures forall i :: 0 <= i < |r| ==> r[i] == (if 0 <= index <= i then xs[i + 1] else xs[i])
  {
    if 0 <= index < |xs| then xs[..index] + xs[index + 1..] else xs
  }

  /** No element occurs twice. */
  predicate Distinct<T(==)>(xs: seq<T>)
  {
    forall i, j :: 0 <= i < j < |xs| ==> xs[i] != xs[j]
  }

  /** Membership in a sequence, usable as a function value. */
  predicate Contains<T(==)>(xs: seq<T>, x: T)
  {
    x in xs
  }

  /** The present values of a sequence of options, in order: the
      `continue`-on-skip loops of the source that push at most one result per
      entry. */
  function Values<T(==,!new)>(xs: seq<Option<T>>): (r: seq<T>)
    ensures |r| <= |xs|
    ensures forall y :: y in r <==> Some(y) in xs
  {
    if |xs| == 0 then []
    else if xs[0].Some? then [xs[0].value] + Values(xs[1..])
    else Values(xs[1..])
  }

  function Wrap<T>(y: T): Option<T>
  {
    Some(y)
  }

  /** The values occur in the order of the options they come from. */
  lemma {:induction false} ValuesInOrder<T(!new)>(xs: seq<Option<T>>)
    ensures IsSubsequence(Map(Values(xs), Wrap), xs)
    decreases |xs|
  {
    if |xs| > 0 {
      ValuesInOrder(xs[1..]);
      if xs[0].Some? {
        assert Map(Values(xs), Wrap)[1..] == Map(Values(xs[1..]), Wrap);
      } else if |Values(xs[1..])| > 0 {
        SubsequenceDropHead(Map(Values(xs[1..]), Wrap), xs);
      }
    }
  }

  lemma ValuesCons<T(!new)>(x: Option<T>, xs: seq<Option<T>>)
    ensures Values([x] + xs) == (if x.Some? then [x.value] else []) + Values(xs)
  {
    assert ([x] + xs)[1..] == xs;
  }

  lemma FilterCons<T>(x: T, xs: seq<T>, p: T -> bool)
    ensures Filter([x] + xs, p) == (if p(x) then [x] else []) + Filter(xs, p)
  {
    assert ([x] + xs)[1..] == xs;
  }

  lemma MapCons<T, U>(x: T, xs: seq<T>, f: T -> U)
    ensures Map([x] + xs, f) == [f(x)] + Map(xs, f)
  {
  }

  /** Reading back what an encoder wrote: when `decode` inverts `encode` on
      every element, the present values of the decoded sequence are the
      original elements. */
  lemma {:induction false} ValuesOfInverse<T(!new), U>(xs: seq<T>, encode: T -> U, decode: U -> Option<T>)
    requires forall i :: 0 <= i < |xs| ==> decode(encode(xs[i])) == Some(xs[i])
    ensures Values(Map(Map(xs, encode), decode)) == xs
    decreases |xs|
  {
    if |xs| > 0 {
      ValuesOfInverse(xs[1..], encode, decode);
      assert Map(xs, encode) == [encode(xs[0])] + Map(xs[1..], encode);
      MapCons(encode(xs[0]), Map(xs[1..], encode), decode);
      ValuesCons(Some(xs[0]), Map(Map(xs[1..], encode), decode));
      assert xs == [xs[0]] + xs[1..];
    }
  }

  /** Membership in a mapped sequence: exactly the images of the members. */
  lemma MapMembers<T, U>(xs: seq<T>, f: T -> U)
    ensures forall y :: y in Map(xs, f) <==> exists x :: x in xs && f(x) == y
  {
    var m := Map(xs, f);
    forall y | y in m ensures exists x :: x in xs && f(x) == y {
      var i :| 0 <= i < |m| && m[i] == y;
      assert xs[i] in xs;
    }
    forall y | exists x :: x in xs && f(x) == y ensures y in m {
      var x :| x in xs && f(x) == y;
      var i :| 0 <= i < |xs| && xs[i] == x;
      assert m[i] == y;
    }
  }

  /** A filter that every element passes keeps the sequence as it is. */
  lemma {:induction false} FilterKeepsAll<T>(xs: seq<T>, p: T -> bool)
    requires forall i :: 0 <= i < |xs| ==> p(xs[i])
    ensures Filter(xs, p) == xs
    decreases |xs|
  {
    if |xs| > 0 {
      FilterKeepsAll(xs[1..], p);
    }
  }
}
