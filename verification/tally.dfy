/** Occurrence counting as the client does it with a `Record<string, number>`
    (`counts[k] = (counts[k] || 0) + 1`), and the ranking
    `Object.entries(counts).sort((a, b) => b[1] - a[1]).slice(0, n)`.
    A histogram is the list of its entries in key-insertion order. */
module Tally {

  datatype Entry = Entry(key: string, count: nat)

  type Histogram = seq<Entry>

  function Keys(h: Histogram): (ks: seq<string>)
    ensures |ks| == |h|
    ensures forall i :: 0 <= i < |h| ==> ks[i] == h[i].key
  {
    seq(|h|, i requires 0 <= i < |h| => h[i].key)
  }

  ghost predicate DistinctKeys(h: Histogram) {
    forall i, j :: 0 <= i < j < |h| ==> h[i].key != h[j].key
  }

  ghost predicate PositiveCounts(h: Histogram) {
    forall i :: 0 <= i < |h| ==> h[i].count > 0
  }

  /** `counts[k] || 0`. */
  function Lookup(h: Histogram, k: string): nat
    decreases |h|
  {
    if |h| == 0 then 0
    else if h[0].key == k then h[0].count
    else Lookup(h[1..], k)
  }

  lemma {:induction false} LookupAbsent(h: Histogram, k: string)
    requires k !in Keys(h)
    ensures Lookup(h, k) == 0
    decreases |h|
  {
    if |h| > 0 {
      assert Keys(h[1..]) == Keys(h)[1..];
      LookupAbsent(h[1..], k);
    }
  }

  /** With distinct keys, an entry's count is what looking its key up
      yields. */
  lemma {:induction false} LookupEntry(h: Histogram, i: nat)
    requires DistinctKeys(h) && i < |h|
    ensures Lookup(h, h[i].key) == h[i].count
    decreases i
  {
    if i > 0 {
      LookupEntry(h[1..], i - 1);
    }
  }

  /** `counts[k] = (counts[k] || 0) + 1`: a known key is incremented in
      place, a new key is appended with count 1. */
  function Bump(h: Histogram, k: string): (h': Histogram)
    ensures forall x :: Lookup(h', x) == Lookup(h, x) + (if x == k then 1 else 0)
    ensures k in Keys(h) ==> Keys(h') == Keys(h)
    ensures k !in Keys(h) ==> Keys(h') == Keys(h) + [k]
    ensures PositiveCounts(h) ==> PositiveCounts(h')
    decreases |h|
  {
    if |h| == 0 then [Entry(k, 1)]
    else if h[0].key == k then [Entry(k, h[0].count + 1)] + h[1..]
    else
      var rest := Bump(h[1..], k);
      assert Keys(h[1..]) == Keys(h)[1..];
      assert Keys([h[0]] + rest) == [h[0].key] + Keys(rest);
      [h[0]] + rest
  }

  lemma KeysDistinct(h: Histogram)
    requires forall i, j :: 0 <= i < j < |Keys(h)| ==> Keys(h)[i] != Keys(h)[j]
    ensures DistinctKeys(h)
  {
    forall i, j | 0 <= i < j < |h|
      ensures h[i].key != h[j].key
    {
      assert Keys(h)[i] == h[i].key && Keys(h)[j] == h[j].key;
    }
  }

  /** Counting a sequence of keys in order. */
  function Count(xs: seq<string>): (h: Histogram)
    ensures DistinctKeys(h) && PositiveCounts(h)
    ensures forall k :: Lookup(h, k) == multiset(xs)[k]
    ensures forall k :: k in Keys(h) <==> k in xs
    decreases |xs|
  {
    if |xs| == 0 then []
    else
      var init := xs[..|xs| - 1];
      var last := xs[|xs| - 1];
      var h0 := Count(init);
      assert xs == init + [last];
      var h' := Bump(h0, last);
      assert forall i, j :: 0 <= i < j < |Keys(h')| ==> Keys(h')[i] != Keys(h')[j];
      KeysDistinct(h');
      h'
  }

  ghost predicate NonIncreasing(h: Histogram) {
    forall i, j :: 0 <= i < j < |h| ==> h[i].count >= h[j].count
  }

  /** No entry of `h` has a count above `c`. */
  ghost predicate AtMost(h: Histogram, c: nat) {
    forall x :: x in h ==> x.count <= c
  }

  lemma PrependKeepsOrder(e: Entry, h: Histogram)
    requires NonIncreasing(h) && AtMost(h, e.count)
    ensures NonIncreasing([e] + h)
  {
    var r := [e] + h;
    forall i, j | 0 <= i < j < |r|
      ensures r[i].count >= r[j].count
    {
      if i == 0 {
        assert r[j] in h;
      } else {
        assert r[i] == h[i - 1] && r[j] == h[j - 1];
      }
    }
  }

  /** Place `e` ahead of the first entry whose count does not exceed its
      own, so that equal counts keep their insertion order. */
  function Insert(e: Entry, h: Histogram): (r: Histogram)
    requires NonIncreasing(h)
    ensures NonIncreasing(r)
    ensures multiset(r) == multiset(h) + multiset{e}
    decreases |h|
  {
    if |h| == 0 || e.count >= h[0].count then
      assert AtMost(h, e.count) by {
        forall x | x in h
          ensures x.count <= e.count
        {
          var j :| 0 <= j < |h| && h[j] == x;
        }
      }
      PrependKeepsOrder(e, h);
      [e] + h
    else
      var rest := Insert(e, h[1..]);
      assert h == [h[0]] + h[1..];
      assert AtMost(rest, h[0].count) by {
        forall x | x in rest
          ensures x.count <= h[0].count
        {
          assert x in multiset(rest);
          if x != e {
            assert x in multiset(h[1..]);
            var j :| 0 <= j < |h[1..]| && h[1..][j] == x;
            assert h[j + 1] == x;
          }
        }
      }
      PrependKeepsOrder(h[0], rest);
      [h[0]] + rest
  }

  /** The entries by non-increasing count. */
  function SortByCount(h: Histogram): (r: Histogram)
    ensures NonIncreasing(r)
    ensures multiset(r) == multiset(h)
    ensures |r| == |h|
    decreases |h|
  {
    if |h| == 0 then []
    else
      assert h == [h[0]] + h[1..];
      var r := Insert(h[0], SortByCount(h[1..]));
      assert |r| == |multiset(r)|;
      r
  }

  /** The `n` best entries: at most `n`, by non-increasing count, each one a
      histogram entry, and none left out that beats a chosen one. */
  function Top(h: Histogram, n: nat): (r: Histogram)
    ensures |r| == if |h| < n then |h| else n
    ensures NonIncreasing(r)
    ensures multiset(r) <= multiset(h)
    ensures forall e, f :: e in r && f in h && f !in r ==> f.count <= e.count
  {
    var sorted := SortByCount(h);
    var k := if |h| < n then |h| else n;
    var r := sorted[..k];
    assert sorted == r + sorted[k..];
    forall e, f | e in r && f in h && f !in r
      ensures f.count <= e.count
    {
      assert f in multiset(h);
      assert f in sorted;
      PrefixBeatsRest(sorted, k, e, f);
    }
    r
  }

  lemma PrefixBeatsRest(sorted: Histogram, k: nat, e: Entry, f: Entry)
    requires NonIncreasing(sorted) && k <= |sorted|
    requires e in sorted[..k] && f in sorted && f !in sorted[..k]
    ensures f.count <= e.count
  {
    var i :| 0 <= i < k && sorted[..k][i] == e;
    var j :| 0 <= j < |sorted| && sorted[j] == f;
    assert j >= k;
  }

  /** Every ranked entry reports its key's true count. */
  lemma TopCountsAreCounts(h: Histogram, n: nat)
    requires DistinctKeys(h)
    ensures forall e :: e in Top(h, n) ==> Lookup(h, e.key) == e.count
  {
    forall e | e in Top(h, n)
      ensures Lookup(h, e.key) == e.count
    {
      assert e in multiset(h);
      var i :| 0 <= i < |h| && h[i] == e;
      LookupEntry(h, i);
    }
  }
}
