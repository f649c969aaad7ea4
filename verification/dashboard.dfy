/** The dashboard (`client/src/pages/Dashboard.tsx`): open claims split into
    this month, last month and older by creation date, each bucket sorted
    oldest first, and the issued / in-progress / completed counts. */
module Dashboard {
  import opened Schema
  import Seqs

  /** `lastMonth` and `lastMonthYear` for the month index (0..11) of now. */
  function PrevMonth(month: int, year: int): (r: (int, int))
    ensures 0 <= month <= 11 ==> 0 <= r.0 <= 11 && r.1 * 12 + r.0 == year * 12 + month - 1
    ensures (r.0, r.1) != (month, year)
  {
    if month == 0 then (11, year - 1) else (month - 1, year)
  }

  /** `getMonth() === month && getFullYear() === year` of the creation time. */
  predicate InMonth(c: Claim, month: int, year: int)
  {
    c.createdAt.month == month && c.createdAt.year == year
  }

  predicate IsCompleted(c: Claim)
  {
    c.fields.status == Completed.Name()
  }

  predicate IsOpen(c: Claim)
  {
    !IsCompleted(c)
  }

  /** The three buckets of open claims for the month `(month, year)`. */
  datatype Buckets = Buckets(thisMonth: seq<Claim>, lastMonth: seq<Claim>, older: seq<Claim>)

  function Incomplete(claims: seq<Claim>): (r: seq<Claim>)
    ensures forall c :: c in r <==> c in claims && IsOpen(c)
  {
    Seqs.Filter(claims, IsOpen)
  }

  /** The three bucket tests, as the filters apply them. */
  function ThisMonthTest(month: int, year: int): Claim -> bool
  {
    c => InMonth(c, month, year)
  }

  function LastMonthTest(month: int, year: int): Claim -> bool
  {
    var prev := PrevMonth(month, year);
    c => InMonth(c, prev.0, prev.1)
  }

  function OlderTest(month: int, year: int): Claim -> bool
  {
    var prev := PrevMonth(month, year);
    c => !InMonth(c, month, year) && !InMonth(c, prev.0, prev.1)
  }

  function Bucket(claims: seq<Claim>, month: int, year: int): Buckets
  {
    var open := Incomplete(claims);
    Buckets(
      Seqs.Filter(open, ThisMonthTest(month, year)),
      Seqs.Filter(open, LastMonthTest(month, year)),
      Seqs.Filter(open, OlderTest(month, year)))
  }

  /** Every open claim lands in exactly one bucket, and only open claims land
      in any. */
  lemma BucketsPartition(claims: seq<Claim>, month: int, year: int)
    ensures var b := Bucket(claims, month, year);
            var prev := PrevMonth(month, year);
            && (forall c :: c in b.thisMonth <==> c in claims && IsOpen(c) && InMonth(c, month, year))
            && (forall c :: c in b.lastMonth <==> c in claims && IsOpen(c) && InMonth(c, prev.0, prev.1))
            && (forall c :: c in b.older <==> c in claims && IsOpen(c) && !InMonth(c, month, year) && !InMonth(c, prev.0, prev.1))
            && (forall c :: !(c in b.thisMonth && c in b.lastMonth))
  {
  }

  /** The buckets together hold as many claims as the open list. */
  lemma BucketSizes(claims: seq<Claim>, month: int, year: int)
    ensures var b := Bucket(claims, month, year);
            |b.thisMonth| + |b.lastMonth| + |b.older| == |Incomplete(claims)|
  {
    ThreeWaySplit(Incomplete(claims), month, year);
  }

  /** Each claim passes exactly one of the three tests, so the filters
      together account for every element once. */
  lemma {:induction false} ThreeWaySplit(xs: seq<Claim>, month: int, year: int)
    ensures |Seqs.Filter(xs, ThisMonthTest(month, year))| + |Seqs.Filter(xs, LastMonthTest(month, year))|
              + |Seqs.Filter(xs, OlderTest(month, year))| == |xs|
    decreases |xs|
  {
    if |xs| > 0 {
      ThreeWaySplit(xs[1..], month, year);
    }
  }

  // ---- counts ----

  /** Claims created in the month, whatever their status. */
  function Issued(claims: seq<Claim>, month: int, year: int): nat
  {
    |Seqs.Filter(claims, ThisMonthTest(month, year))|
  }

  /** Open claims created in the month. */
  function InProgress(claims: seq<Claim>, month: int, year: int): nat
  {
    |Seqs.Filter(Incomplete(claims), ThisMonthTest(month, year))|
  }

  /** Completed claims created in the month. */
  function CompletedIn(claims: seq<Claim>, month: int, year: int): nat
  {
    |Seqs.Filter(claims, c => IsCompleted(c) && InMonth(c, month, year))|
  }

  /** Issued is in progress plus completed, for any month. */
  lemma {:induction false} IssuedSplits(claims: seq<Claim>, month: int, year: int)
    ensures Issued(claims, month, year) == InProgress(claims, month, year) + CompletedIn(claims, month, year)
    decreases |claims|
  {
    if |claims| > 0 {
      IssuedSplits(claims[1..], month, year);
    }
  }

  /** The dashboard's two rows of counts. */
  lemma DashboardCounts(claims: seq<Claim>, month: int, year: int)
    ensures var prev := PrevMonth(month, year);
            && Issued(claims, month, year) == |Bucket(claims, month, year).thisMonth| + CompletedIn(claims, month, year)
            && Issued(claims, prev.0, prev.1) == |Bucket(claims, month, year).lastMonth| + CompletedIn(claims, prev.0, prev.1)
  {
    var prev := PrevMonth(month, year);
    IssuedSplits(claims, month, year);
    IssuedSplits(claims, prev.0, prev.1);
  }

  // ---- ordering within a bucket ----

  function Time(c: Claim): int
  {
    c.createdAt.time
  }

  predicate SortedByCreation(xs: seq<Claim>)
  {
    forall i, j :: 0 <= i < j < |xs| ==> Time(xs[i]) <= Time(xs[j])
  }

  /** Inserts `x` after every element not later than it. */
  function Insert(x: Claim, xs: seq<Claim>): (r: seq<Claim>)
    ensures |r| == |xs| + 1
    ensures multiset(r) == multiset(xs) + multiset{x}
    decreases |xs|
  {
    if |xs| == 0 then [x]
    else if Time(x) < Time(xs[0]) then [x] + xs
    else
      var rest := Insert(x, xs[1..]);
      assert xs == [xs[0]] + xs[1..];
      [xs[0]] + rest
  }

  /** A bound below `x` and every element of `xs` bounds the insertion too. */
  lemma {:induction false} InsertBound(x: Claim, xs: seq<Claim>, b: int)
    requires b <= Time(x)
    requires forall i :: 0 <= i < |xs| ==> b <= Time(xs[i])
    ensures forall i :: 0 <= i < |Insert(x, xs)| ==> b <= Time(Insert(x, xs)[i])
    decreases |xs|
  {
    if |xs| > 0 && Time(x) >= Time(xs[0]) {
      InsertBound(x, xs[1..], b);
    }
  }

  /** Inserting into a sorted sequence keeps it sorted. */
  lemma {:induction false} InsertSorted(x: Claim, xs: seq<Claim>)
    requires SortedByCreation(xs)
    ensures SortedByCreation(Insert(x, xs))
    decreases |xs|
  {
    if |xs| == 0 {
    } else if Time(x) < Time(xs[0]) {
      SortedCons(x, xs);
    } else {
      InsertSorted(x, xs[1..]);
      InsertBound(x, xs[1..], Time(xs[0]));
      SortedCons(xs[0], Insert(x, xs[1..]));
    }
  }

  /** A claim no later than every element of a sorted sequence can go first. */
  lemma SortedCons(h: Claim, t: seq<Claim>)
    requires SortedByCreation(t)
    requires forall i :: 0 <= i < |t| ==> Time(h) <= Time(t[i])
    ensures SortedByCreation([h] + t)
  {
    var r := [h] + t;
    forall i, j | 0 <= i < j < |r| ensures Time(r[i]) <= Time(r[j]) {
      assert r[j] == t[j - 1];
      if i > 0 {
        assert r[i] == t[i - 1];
      }
    }
  }

  /** `[...bucket].sort((a, b) => time(a) - time(b))`: an insertion sort that,
      like the stable `Array.prototype.sort`, keeps claims created at the same
      time in their original order. */
  function SortByCreation(xs: seq<Claim>): (r: seq<Claim>)
    ensures |r| == |xs|
    ensures multiset(r) == multiset(xs)
    ensures SortedByCreation(r)
    decreases |xs|
  {
    if |xs| == 0 then []
    else
      var init := SortByCreation(xs[..|xs| - 1]);
      InsertSorted(xs[|xs| - 1], init);
      LastSplit(xs);
      Insert(xs[|xs| - 1], init)
  }

  lemma LastSplit(xs: seq<Claim>)
    requires |xs| > 0
    ensures multiset(xs) == multiset(xs[..|xs| - 1]) + multiset{xs[|xs| - 1]}
  {
    assert xs == xs[..|xs| - 1] + [xs[|xs| - 1]];
  }

  /** The dashboard shows each bucket as a sorted rearrangement of itself. */
  lemma SortedBuckets(claims: seq<Claim>, month: int, year: int)
    ensures var b := Bucket(claims, month, year);
            && multiset(SortByCreation(b.thisMonth)) == multiset(b.thisMonth)
            && multiset(SortByCreation(b.lastMonth)) == multiset(b.lastMonth)
            && multiset(SortByCreation(b.older)) == multiset(b.older)
            && SortedByCreation(SortByCreation(b.thisMonth))
            && SortedByCreation(SortByCreation(b.lastMonth))
            && SortedByCreation(SortByCreation(b.older))
  {
  }

  /** A bucket already in creation order comes out unchanged: claims are
      never reordered without cause. */
  lemma {:induction false} SortKeepsSorted(xs: seq<Claim>)
    requires SortedByCreation(xs)
    ensures SortByCreation(xs) == xs
    decreases |xs|
  {
    if |xs| > 0 {
      var init := xs[..|xs| - 1];
      assert SortedByCreation(init);
      SortKeepsSorted(init);
      InsertAtEnd(xs[|xs| - 1], init);
      assert init + [xs[|xs| - 1]] == xs;
    }
  }

  /** A claim no earlier than every element goes to the end, after those
      created at the same time. */
  lemma {:induction false} InsertAtEnd(x: Claim, xs: seq<Claim>)
    requires forall i :: 0 <= i < |xs| ==> Time(xs[i]) <= Time(x)
    ensures Insert(x, xs) == xs + [x]
    decreases |xs|
  {
    if |xs| > 0 {
      InsertAtEnd(x, xs[1..]);
      assert xs == [xs[0]] + xs[1..];
    }
  }
}
