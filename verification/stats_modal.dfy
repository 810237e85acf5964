/** The statistics dialog: status totals, completion rate, genre and
    director rankings, and the oldest, newest and average release year. */
module StatsModal {
  import opened Base
  import opened Seqs
  import opened Schema
  import opened Tally
  import opened Collection

  /** `Math.round(num / den)` for a positive denominator, in exact
      arithmetic: halves round up. */
  function RoundDiv(num: int, den: int): (q: int)
    requires den > 0
    ensures 2 * den * q <= 2 * num + den < 2 * den * (q + 1)
  {
    var q := (2 * num + den) / (2 * den);
    assert 2 * num + den == (2 * den) * q + (2 * num + den) % (2 * den);
    q
  }

  lemma MulMono(c: int, a: int, b: int)
    requires c >= 0 && a <= b
    ensures c * a <= c * b
  {
  }

  /** A rounded quotient lies within any bounds the exact quotient lies
      within. */
  lemma RoundDivBetween(num: int, den: int, lo: int, hi: int)
    requires den > 0 && den * lo <= num <= den * hi
    ensures lo <= RoundDiv(num, den) <= hi
  {
    var q := RoundDiv(num, den);
    if q < lo {
      MulMono(2 * den, q + 1, lo);
    }
    if q > hi {
      MulMono(2 * den, hi + 1, q);
    }
  }

  /** `total > 0 ? Math.round((owned / total) * 100) : 0`. */
  function CompletionRate(owned: nat, total: nat): (r: int)
    ensures total == 0 ==> r == 0
    ensures total > 0 ==> 2 * total * r <= 200 * owned + total < 2 * total * (r + 1)
    ensures owned <= total ==> 0 <= r <= 100
  {
    if total == 0 then 0
    else if owned <= total then
      RoundDivBetween(100 * owned, total, 0, 100);
      RoundDiv(100 * owned, total)
    else
      RoundDiv(100 * owned, total)
  }

  // ---------------------------------------------------------------------------
  // Years
  // ---------------------------------------------------------------------------

  /** Whether a record carries the truthy year `y`. */
  function HasYear(y: int): Dvd -> bool {
    (d: Dvd) => TruthyNumber(d.year) && d.year.value == y
  }

  /** `dvds.filter(dvd => dvd.year).map(dvd => dvd.year!)`: one entry per
      record with a truthy year. */
  function Years(dvds: seq<Dvd>): (ys: seq<int>)
    ensures forall y :: y in ys <==> exists d :: d in dvds && TruthyNumber(d.year) && d.year.value == y
    ensures forall y :: multiset(ys)[y] == |Filter(HasYear(y), dvds)|
    decreases |dvds|
  {
    if |dvds| == 0 then []
    else
      var rest := Years(dvds[1..]);
      assert forall d :: d in dvds[1..] ==> d in dvds;
      assert forall d :: d in dvds ==> d == dvds[0] || d in dvds[1..];
      var ys := if TruthyNumber(dvds[0].year) then [dvds[0].year.value] + rest else rest;
      forall y
        ensures multiset(ys)[y] == |Filter(HasYear(y), dvds)|
      {
        assert Filter(HasYear(y), dvds)
          == (if HasYear(y)(dvds[0]) then [dvds[0]] else []) + Filter(HasYear(y), dvds[1..]);
      }
      ys
  }

  function MinOf(ys: seq<int>): (m: int)
    requires |ys| > 0
    ensures m in ys && forall y :: y in ys ==> m <= y
    decreases |ys|
  {
    if |ys| == 1 then ys[0]
    else
      var m := MinOf(ys[1..]);
      assert forall y :: y in ys ==> y == ys[0] || y in ys[1..];
      if ys[0] <= m then ys[0] else m
  }

  function MaxOf(ys: seq<int>): (m: int)
    requires |ys| > 0
    ensures m in ys && forall y :: y in ys ==> y <= m
    decreases |ys|
  {
    if |ys| == 1 then ys[0]
    else
      var m := MaxOf(ys[1..]);
      assert forall y :: y in ys ==> y == ys[0] || y in ys[1..];
      if ys[0] >= m then ys[0] else m
  }

  function Sum(ys: seq<int>): int
    decreases |ys|
  {
    if |ys| == 0 then 0 else ys[0] + Sum(ys[1..])
  }

  /** The sum lies between count times the least and count times the
      greatest element. */
  lemma {:induction false} SumBounds(ys: seq<int>, lo: int, hi: int)
    requires forall y :: y in ys ==> lo <= y <= hi
    ensures |ys| * lo <= Sum(ys) <= |ys| * hi
    decreases |ys|
  {
    if |ys| > 0 {
      assert forall y :: y in ys[1..] ==> y in ys;
      SumBounds(ys[1..], lo, hi);
      assert ys[0] in ys;
      assert |ys| * lo == lo + (|ys| - 1) * lo;
      assert |ys| * hi == hi + (|ys| - 1) * hi;
    }
  }

  datatype YearStats = YearStats(oldest: Option<int>, newest: Option<int>, average: Option<int>)

  /** `oldestYear`, `newestYear`, `avgYear`. */
  function YearSummary(dvds: seq<Dvd>): (s: YearStats)
    ensures s.oldest.None? <==> forall d :: d in dvds ==> !TruthyNumber(d.year)
    ensures s.oldest.None? <==> s.newest.None?
    ensures s.oldest.None? <==> s.average.None?
    ensures s.oldest.Some? ==>
      && (exists d :: d in dvds && d.year == s.oldest)
      && (forall d :: d in dvds && TruthyNumber(d.year) ==> s.oldest.value <= d.year.value)
    ensures s.newest.Some? ==>
      && (exists d :: d in dvds && d.year == s.newest)
      && (forall d :: d in dvds && TruthyNumber(d.year) ==> d.year.value <= s.newest.value)
    ensures s.oldest.Some? ==> s.oldest.value <= s.average.value <= s.newest.value
    ensures s.average.Some? ==>
      var ys := Years(dvds);
      |ys| > 0 && s.average.value == RoundDiv(Sum(ys), |ys|)
  {
    var ys := Years(dvds);
    if |ys| == 0 then
      assert forall d :: d in dvds && TruthyNumber(d.year) ==> d.year.value in ys;
      YearStats(None, None, None)
    else
      var lo := MinOf(ys);
      var hi := MaxOf(ys);
      forall d | d in dvds && TruthyNumber(d.year)
        ensures lo <= d.year.value <= hi
      {
        assert d.year.value in ys;
      }
      SumBounds(ys, lo, hi);
      RoundDivBetween(Sum(ys), |ys|, lo, hi);
      assert exists d :: d in dvds && TruthyNumber(d.year) && d.year.value == lo;
      assert exists d :: d in dvds && TruthyNumber(d.year) && d.year.value == hi;
      YearStats(Some(lo), Some(hi), Some(RoundDiv(Sum(ys), |ys|)))
  }

  // ---------------------------------------------------------------------------
  // Directors
  // ---------------------------------------------------------------------------

  /** Whether a record carries the truthy director name `n`. */
  function HasDirector(n: string): Dvd -> bool {
    (d: Dvd) => TruthyText(d.director) && d.director.value == n
  }

  /** The non-empty director names, one entry per record, in collection
      order. */
  function Directors(dvds: seq<Dvd>): (ns: seq<string>)
    ensures forall n :: n in ns <==> exists d :: d in dvds && TruthyText(d.director) && d.director.value == n
    ensures forall n :: multiset(ns)[n] == |Filter(HasDirector(n), dvds)|
    decreases |dvds|
  {
    if |dvds| == 0 then []
    else
      var rest := Directors(dvds[1..]);
      assert forall d :: d in dvds[1..] ==> d in dvds;
      assert forall d :: d in dvds ==> d == dvds[0] || d in dvds[1..];
      var ns := if TruthyText(dvds[0].director) then [dvds[0].director.value] + rest else rest;
      forall n
        ensures multiset(ns)[n] == |Filter(HasDirector(n), dvds)|
      {
        assert Filter(HasDirector(n), dvds)
          == (if HasDirector(n)(dvds[0]) then [dvds[0]] else []) + Filter(HasDirector(n), dvds[1..]);
      }
      ns
  }

  // ---------------------------------------------------------------------------
  // The whole dialog
  // ---------------------------------------------------------------------------

  const TopCount: nat := 5

  datatype Stats = Stats(
    total: nat,
    owned: nat,
    wishlist: nat,
    topGenres: Histogram,
    topDirectors: Histogram,
    years: YearStats,
    completionRate: int)

  /** `topGenres`: at most five labels by non-increasing count, each with
      its true count. */
  function TopGenres(dvds: seq<Dvd>): (top: Histogram)
    ensures |top| == if |GenreCounts(dvds)| < TopCount then |GenreCounts(dvds)| else TopCount
    ensures NonIncreasing(top) && multiset(top) <= multiset(GenreCounts(dvds))
    ensures forall e :: e in top ==> e.count == multiset(GenreLabels(dvds))[e.key]
    ensures forall e, f :: e in top && f in GenreCounts(dvds) && f !in top ==> f.count <= e.count
  {
    var genres := GenreCounts(dvds);
    TopCountsAreCounts(genres, TopCount);
    Top(genres, TopCount)
  }

  /** `topDirectors`: at most five names by non-increasing count, each with
      its true count. */
  function TopDirectors(dvds: seq<Dvd>): (top: Histogram)
    ensures |top| == if |Count(Directors(dvds))| < TopCount then |Count(Directors(dvds))| else TopCount
    ensures NonIncreasing(top) && multiset(top) <= multiset(Count(Directors(dvds)))
    ensures forall e :: e in top ==> e.count == multiset(Directors(dvds))[e.key]
    ensures forall e, f :: e in top && f in Count(Directors(dvds)) && f !in top ==> f.count <= e.count
  {
    var directors := Count(Directors(dvds));
    TopCountsAreCounts(directors, TopCount);
    Top(directors, TopCount)
  }

  /** The dialog's `stats`. */
  function ComputeStats(dvds: seq<Dvd>): (s: Stats)
    ensures s.total == |dvds| && s.owned + s.wishlist <= s.total
    ensures s.owned == multiset(Statuses(dvds))[Owned]
    ensures s.wishlist == multiset(Statuses(dvds))[Wishlist]
    ensures s.completionRate == CompletionRate(s.owned, s.total) && 0 <= s.completionRate <= 100
    ensures s.topGenres == TopGenres(dvds) && s.topDirectors == TopDirectors(dvds)
    ensures s.years == YearSummary(dvds)
  {
    var c := StatusCounts(dvds);
    Stats(c.total, c.owned, c.wishlist, TopGenres(dvds), TopDirectors(dvds),
      YearSummary(dvds), CompletionRate(c.owned, c.total))
  }
}
