/** The rating histogram of a book's reviews. A review's rate is an integer of half-stars in
    0..10; the histogram has one bin per half-star step from 0.0 to 5.0 stars, and bin `k`
    (for `k / 2` stars) counts the reviews whose rate is `k`. Rates arrive as plain integers:
    a rate the server would refuse is ignored by the binning. */
module ReviewHistogram {
  import opened Common

  /** The number of bins: 0.0, 0.5, …, 5.0 stars. */
  const BinCount := 11

  /** A bin of the chart: `halfStars / 2` stars and the number of reviews rated so. */
  datatype Bin = Bin(halfStars: int, count: nat)

  /** The bins a list of rates makes: bin `k` counts the occurrences of rate `k`. */
  function Histogram(rates: seq<int>): seq<Bin> {
    seq(BinCount, k => Bin(k, multiset(rates)[k]))
  }

  /** The bin a rate falls in: normalised to stars and written with one decimal it names bin
      `rate` when the rate is a half-star count 0..10, and no bin otherwise. */
  function BinOf(rate: int): (k: Option<nat>)
    ensures k.Some? <==> 0 <= rate < BinCount
    ensures k.Some? ==> k.value == rate
  {
    if 0 <= rate < BinCount then Some(rate) else None
  }

  /** `groupRatings`: no bins for a missing or empty list; otherwise the eleven bins in
      ascending order, all starting at zero and each review adding one to its own bin. */
  method GroupRatings(reviews: Option<seq<int>>) returns (r: seq<Bin>)
    ensures (reviews.None? || reviews.value == []) ==> r == []
    ensures reviews.Some? && reviews.value != [] ==>
              && r == Histogram(reviews.value)
              && |r| == BinCount
              && (forall k | 0 <= k < |r| :: r[k].halfStars == k)
              && (forall k | 0 <= k < |r| :: r[k].count == multiset(reviews.value)[k])
  {
    if reviews.None? || reviews.value == [] {
      return [];
    }
    var rates := reviews.value;
    var counts := new nat[BinCount](_ => 0);
    var i := 0;
    while i < |rates|
      invariant 0 <= i <= |rates|
      invariant forall k | 0 <= k < BinCount :: counts[k] == multiset(rates[..i])[k]
    {
      assert rates[..i + 1] == rates[..i] + [rates[i]];
      var bin := BinOf(rates[i]);
      if bin.Some? {
        counts[bin.value] := counts[bin.value] + 1;
      }
      i := i + 1;
    }
    assert rates[..i] == rates;
    r := seq(BinCount, k requires 0 <= k < BinCount reads counts => Bin(k, counts[k]));
  }

  /** The chart is drawn only for more than four reviews; fewer get a short notice. */
  function ShowsChart(reviews: Option<seq<int>>): (shown: bool)
    ensures shown <==> reviews.Some? && |reviews.value| > 4
  {
    match reviews
    case None => false
    case Some(rates) => |rates| > 4
  }

  /** The sum of the counts of some bins. */
  function Total(bins: seq<Bin>): nat {
    if bins == [] then 0 else bins[0].count + Total(bins[1..])
  }

  /** How many of the rates fall in some bin. */
  function InRange(rates: seq<int>): (n: nat)
    ensures n <= |rates|
    ensures n == |rates| <==> forall i | 0 <= i < |rates| :: 0 <= rates[i] < BinCount
  {
    if rates == [] then 0
    else
      var n := InRange(rates[..|rates| - 1]) + if 0 <= rates[|rates| - 1] < BinCount then 1 else 0;
      assert forall i | 0 <= i < |rates| - 1 :: rates[..|rates| - 1][i] == rates[i];
      n
  }

  /** Bins that agree with `b` except for one more in bin number `k` (if there is one) add up
      to one more. */
  lemma {:induction false} TotalBumped(b: seq<Bin>, b': seq<Bin>, k: int)
    requires |b'| == |b|
    requires forall i | 0 <= i < |b| :: b'[i].count == b[i].count + (if i == k then 1 else 0)
    ensures Total(b') == Total(b) + (if 0 <= k < |b| then 1 else 0)
  {
    if b != [] {
      TotalBumped(b[1..], b'[1..], k - 1);
    }
  }

  /** Bins that are all empty add up to nothing. */
  lemma {:induction false} TotalEmpty(b: seq<Bin>)
    requires forall i | 0 <= i < |b| :: b[i].count == 0
    ensures Total(b) == 0
  {
    if b != [] {
      TotalEmpty(b[1..]);
    }
  }

  /** Every rate in 0..10 is counted in exactly one bin and every other rate in none, so the
      counts add up to the number of rates in range: at most the number of reviews, and equal
      to it exactly when every rate is a valid one. */
  lemma {:induction false} CountsAddUp(rates: seq<int>)
    ensures Total(Histogram(rates)) == InRange(rates)
    ensures Total(Histogram(rates)) <= |rates|
    ensures Total(Histogram(rates)) == |rates| <==> forall i | 0 <= i < |rates| :: 0 <= rates[i] < BinCount
  {
    if rates == [] {
      TotalEmpty(Histogram([]));
    } else {
      var init := rates[..|rates| - 1];
      var x := rates[|rates| - 1];
      assert rates == init + [x];
      assert multiset(rates) == multiset(init) + multiset{x};
      CountsAddUp(init);
      TotalBumped(Histogram(init), Histogram(rates), x);
    }
  }
}
