/** The collection page: the in-memory query pipeline `filteredDvds`, the
    status counts, the genre histogram and the empty-state message. */
module Collection {
  import opened Base
  import opened Seqs
  import opened Strings
  import opened Schema
  import opened Tally
  import Storage

  datatype YearRange = YearRange(lo: int, hi: int)

  /** The sidebar's selection: statuses and genre labels in the order they
      were checked, and the slider's two ends. */
  datatype FilterState = FilterState(status: seq<string>, genres: seq<string>, yearRange: YearRange)

  /** The page's initial filters. */
  const DefaultFilters: FilterState := FilterState([], [], YearRange(1950, 2024))

  // ---------------------------------------------------------------------------
  // The four predicates, each with "no selection" meaning "no constraint"
  // ---------------------------------------------------------------------------

  /** The lower-cased query occurs in the lower-cased title, director or
      genre; an empty query matches everything. */
  predicate MatchesSearch(d: Dvd, query: string) {
    var q := Lower(query);
    || query == ""
    || Contains(Lower(d.title), q)
    || (d.director.Some? && Contains(Lower(d.director.value), q))
    || (d.genre.Some? && Contains(Lower(d.genre.value), q))
  }

  predicate MatchesStatus(d: Dvd, selected: seq<string>) {
    |selected| == 0 || d.status in selected
  }

  /** Some selected label occurs (case-sensitively) in a non-empty genre. */
  predicate GenreHit(d: Dvd, selected: seq<string>) {
    TruthyText(d.genre) && exists g :: g in selected && Contains(d.genre.value, g)
  }

  predicate MatchesGenre(d: Dvd, selected: seq<string>) {
    |selected| == 0 || GenreHit(d, selected)
  }

  /** A record without a (truthy) year always passes. */
  predicate MatchesYear(d: Dvd, r: YearRange) {
    !TruthyNumber(d.year) || r.lo <= d.year.value <= r.hi
  }

  predicate MatchesAll(d: Dvd, query: string, f: FilterState) {
    MatchesSearch(d, query) && MatchesStatus(d, f.status) && MatchesGenre(d, f.genres) && MatchesYear(d, f.yearRange)
  }

  // The predicates as function values, so that filters by them can be
  // named and compared.
  function SearchPred(query: string): Dvd -> bool { d => MatchesSearch(d, query) }
  function StatusPred(selected: seq<string>): Dvd -> bool { d => MatchesStatus(d, selected) }
  function GenrePred(selected: seq<string>): Dvd -> bool { d => MatchesGenre(d, selected) }
  function YearPred(r: YearRange): Dvd -> bool { d => MatchesYear(d, r) }
  function AllPred(query: string, f: FilterState): Dvd -> bool { d => MatchesAll(d, query, f) }

  // ---------------------------------------------------------------------------
  // The pipeline as the page runs it: search, status, genre, year
  // ---------------------------------------------------------------------------

  /** The page's status test (applied only for a non-empty selection). */
  function StatusIn(selected: seq<string>): Dvd -> bool { (d: Dvd) => d.status in selected }

  /** The page's genre test (applied only for a non-empty selection). */
  function GenreIn(selected: seq<string>): Dvd -> bool { d => GenreHit(d, selected) }

  function SearchStage(dvds: seq<Dvd>, query: string): seq<Dvd> {
    if query != "" then Filter(SearchPred(query), dvds) else dvds
  }

  function StatusStage(dvds: seq<Dvd>, selected: seq<string>): seq<Dvd> {
    if |selected| > 0 then Filter(StatusIn(selected), dvds) else dvds
  }

  function GenreStage(dvds: seq<Dvd>, selected: seq<string>): seq<Dvd> {
    if |selected| > 0 then Filter(GenreIn(selected), dvds) else dvds
  }

  function YearStage(dvds: seq<Dvd>, r: YearRange): seq<Dvd> {
    Filter(YearPred(r), dvds)
  }

  /** `filteredDvds`: a record survives iff it meets all four predicates. */
  function FilteredDvds(dvds: seq<Dvd>, query: string, f: FilterState): (r: seq<Dvd>)
    ensures forall d :: d in r <==> d in dvds && MatchesAll(d, query, f)
    ensures |r| <= |dvds|
  {
    YearStage(GenreStage(StatusStage(SearchStage(dvds, query), f.status), f.genres), f.yearRange)
  }

  /** Each stage is a filter by its predicate. */
  lemma StagesAreFilters(dvds: seq<Dvd>, query: string, f: FilterState)
    ensures SearchStage(dvds, query) == Filter(SearchPred(query), dvds)
    ensures StatusStage(dvds, f.status) == Filter(StatusPred(f.status), dvds)
    ensures GenreStage(dvds, f.genres) == Filter(GenrePred(f.genres), dvds)
  {
    if query == "" {
      FilterAll(SearchPred(query), dvds);
    }
    if |f.status| > 0 {
      FilterExtensional(StatusIn(f.status), StatusPred(f.status), dvds);
    } else {
      FilterAll(StatusPred(f.status), dvds);
    }
    if |f.genres| > 0 {
      FilterExtensional(GenreIn(f.genres), GenrePred(f.genres), dvds);
    } else {
      FilterAll(GenrePred(f.genres), dvds);
    }
  }

  function SearchAndStatus(query: string, f: FilterState): Dvd -> bool {
    d => MatchesSearch(d, query) && MatchesStatus(d, f.status)
  }

  function SearchStatusGenre(query: string, f: FilterState): Dvd -> bool {
    d => MatchesSearch(d, query) && MatchesStatus(d, f.status) && MatchesGenre(d, f.genres)
  }

  /** The pipeline is one filter by the conjunction of the four predicates. */
  lemma FilteredIsConjunction(dvds: seq<Dvd>, query: string, f: FilterState)
    ensures FilteredDvds(dvds, query, f) == Filter(AllPred(query, f), dvds)
  {
    var s1 := SearchStage(dvds, query);
    var s2 := StatusStage(s1, f.status);
    var s3 := GenreStage(s2, f.genres);
    StagesAreFilters(dvds, query, f);
    StagesAreFilters(s1, query, f);
    StagesAreFilters(s2, query, f);
    FilterThenFilter(StatusPred(f.status), SearchPred(query), SearchAndStatus(query, f), dvds);
    FilterThenFilter(GenrePred(f.genres), SearchAndStatus(query, f), SearchStatusGenre(query, f), dvds);
    FilterThenFilter(YearPred(f.yearRange), SearchStatusGenre(query, f), AllPred(query, f), dvds);
  }

  /** The result keeps the collection's order: it is a subsequence. */
  lemma FilteredIsSubsequence(dvds: seq<Dvd>, query: string, f: FilterState)
    ensures IsSubsequence(FilteredDvds(dvds, query, f), dvds)
  {
    FilteredIsConjunction(dvds, query, f);
    FilterIsSubsequence(AllPred(query, f), dvds);
  }

  function YearAndGenre(f: FilterState): Dvd -> bool {
    d => MatchesYear(d, f.yearRange) && MatchesGenre(d, f.genres)
  }

  function YearGenreStatus(f: FilterState): Dvd -> bool {
    d => MatchesYear(d, f.yearRange) && MatchesGenre(d, f.genres) && MatchesStatus(d, f.status)
  }

  /** Running the stages in the opposite order gives the same result. */
  lemma StageOrderIrrelevant(dvds: seq<Dvd>, query: string, f: FilterState)
    ensures FilteredDvds(dvds, query, f)
         == SearchStage(StatusStage(GenreStage(YearStage(dvds, f.yearRange), f.genres), f.status), query)
  {
    var t1 := YearStage(dvds, f.yearRange);
    var t2 := GenreStage(t1, f.genres);
    var t3 := StatusStage(t2, f.status);
    StagesAreFilters(t1, query, f);
    StagesAreFilters(t2, query, f);
    StagesAreFilters(t3, query, f);
    FilterThenFilter(GenrePred(f.genres), YearPred(f.yearRange), YearAndGenre(f), dvds);
    FilterThenFilter(StatusPred(f.status), YearAndGenre(f), YearGenreStatus(f), dvds);
    FilterThenFilter(SearchPred(query), YearGenreStatus(f), AllPred(query, f), dvds);
    FilteredIsConjunction(dvds, query, f);
  }

  /** A non-empty query keeps a record iff the lower-cased query occurs in
      its lower-cased title, director or genre. */
  lemma SearchMeaning(d: Dvd, query: string)
    requires query != ""
    ensures MatchesSearch(d, query) <==>
      || (exists i :: OccursAt(Lower(d.title), Lower(query), i))
      || (d.director.Some? && exists i :: OccursAt(Lower(d.director.value), Lower(query), i))
      || (d.genre.Some? && exists i :: OccursAt(Lower(d.genre.value), Lower(query), i))
  {
  }

  /** Whatever the server's case-sensitive search returns, the page's own
      search keeps. */
  lemma ServerSearchWithinPageSearch(d: Dvd, query: string)
    requires Storage.TextMatch(d, query)
    ensures MatchesSearch(d, query)
  {
    if Contains(d.title, query) {
      ContainsLower(d.title, query);
    } else if d.director.Some? && Contains(d.director.value, query) {
      ContainsLower(d.director.value, query);
    } else {
      ContainsLower(d.genre.value, query);
    }
  }

  // ---------------------------------------------------------------------------
  // Counts over the whole (unfiltered) collection
  // ---------------------------------------------------------------------------

  /** The number of records whose status is exactly `s`. */
  function CountStatus(dvds: seq<Dvd>, s: string): nat {
    |Filter((d: Dvd) => d.status == s, dvds)|
  }

  /** The status column of the collection. */
  function Statuses(dvds: seq<Dvd>): (ss: seq<string>)
    ensures |ss| == |dvds|
    ensures forall i :: 0 <= i < |dvds| ==> ss[i] == dvds[i].status
  {
    seq(|dvds|, i requires 0 <= i < |dvds| => dvds[i].status)
  }

  /** A status count is the multiplicity of that status in the column. */
  lemma {:induction false} CountStatusIsMultiplicity(dvds: seq<Dvd>, s: string)
    ensures CountStatus(dvds, s) == multiset(Statuses(dvds))[s]
    decreases |dvds|
  {
    if |dvds| > 0 {
      CountStatusIsMultiplicity(dvds[1..], s);
      assert Statuses(dvds) == [dvds[0].status] + Statuses(dvds[1..]);
    }
  }

  lemma {:induction false} StatusCountsPartition(dvds: seq<Dvd>)
    ensures CountStatus(dvds, Owned) + CountStatus(dvds, Wishlist)
          + |Filter((d: Dvd) => d.status != Owned && d.status != Wishlist, dvds)| == |dvds|
    decreases |dvds|
  {
    if |dvds| > 0 {
      StatusCountsPartition(dvds[1..]);
    }
  }

  datatype Counts = Counts(total: nat, owned: nat, wishlist: nat)

  /** `stats`: the totals of the full collection (the page passes the
      unfiltered list). */
  function StatusCounts(dvds: seq<Dvd>): (c: Counts)
    ensures c.total == |dvds|
    ensures c.owned + c.wishlist <= c.total
    ensures c.owned == multiset(Statuses(dvds))[Owned]
    ensures c.wishlist == multiset(Statuses(dvds))[Wishlist]
  {
    StatusCountsPartition(dvds);
    CountStatusIsMultiplicity(dvds, Owned);
    CountStatusIsMultiplicity(dvds, Wishlist);
    Counts(|dvds|, CountStatus(dvds, Owned), CountStatus(dvds, Wishlist))
  }

  // ---------------------------------------------------------------------------
  // The genre histogram
  // ---------------------------------------------------------------------------

  const GenreSeparator: string := ", "

  /** The labels one record contributes: its genre split on `", "`, or
      nothing when the genre is null or empty. */
  function GenreLabelsOf(d: Dvd): seq<string> {
    if TruthyText(d.genre) then Split(d.genre.value, GenreSeparator) else []
  }

  /** All labels, record by record, in collection order. */
  function GenreLabels(dvds: seq<Dvd>): seq<string>
    decreases |dvds|
  {
    if |dvds| == 0 then [] else GenreLabelsOf(dvds[0]) + GenreLabels(dvds[1..])
  }

  lemma {:induction false} GenreLabelsAppend(dvds: seq<Dvd>, more: seq<Dvd>)
    ensures GenreLabels(dvds + more) == GenreLabels(dvds) + GenreLabels(more)
    decreases |dvds|
  {
    if |dvds| == 0 {
      assert dvds + more == more;
    } else {
      var all := dvds + more;
      assert all[0] == dvds[0] && all[1..] == dvds[1..] + more;
      GenreLabelsAppend(dvds[1..], more);
      var head := GenreLabelsOf(dvds[0]);
      assert GenreLabels(all) == head + (GenreLabels(dvds[1..]) + GenreLabels(more));
      assert GenreLabels(dvds) == head + GenreLabels(dvds[1..]);
    }
  }

  /** `genreCounts`. */
  function GenreCounts(dvds: seq<Dvd>): (h: Histogram)
    ensures DistinctKeys(h) && PositiveCounts(h)
    ensures forall k :: Lookup(h, k) == multiset(GenreLabels(dvds))[k]
  {
    Count(GenreLabels(dvds))
  }

  /** Adding a record adds one to each of its `", "`-separated labels (once
      per occurrence) and nothing when it has no genre. */
  lemma GenreContribution(dvds: seq<Dvd>, d: Dvd, k: string)
    ensures Lookup(GenreCounts(dvds + [d]), k)
         == Lookup(GenreCounts(dvds), k) + (if TruthyText(d.genre) then multiset(Split(d.genre.value, GenreSeparator))[k] else 0)
  {
    GenreLabelsAppend(dvds, [d]);
    assert GenreLabels([d]) == GenreLabelsOf(d) + GenreLabels([]);
  }

  /** A record with a single-label genre adds exactly one to that label. */
  lemma SingleGenreCountsOnce(dvds: seq<Dvd>, d: Dvd)
    requires TruthyText(d.genre) && !Contains(d.genre.value, GenreSeparator)
    ensures Lookup(GenreCounts(dvds + [d]), d.genre.value) == Lookup(GenreCounts(dvds), d.genre.value) + 1
  {
    SplitWithoutSeparator(d.genre.value, GenreSeparator);
    GenreContribution(dvds, d, d.genre.value);
  }

  // ---------------------------------------------------------------------------
  // The empty state
  // ---------------------------------------------------------------------------

  datatype EmptyMessage = NoMatches | NothingYet

  /** The heading shown when nothing is listed, as the page decides it: it
      looks at the query and the two checkbox groups only. */
  function EmptyStateAsWritten(query: string, f: FilterState): (m: EmptyMessage)
    ensures m == NothingYet <==> query == "" && |f.status| == 0 && |f.genres| == 0
  {
    if query != "" || |f.status| > 0 || |f.genres| > 0 then NoMatches else NothingYet
  }

  /** The year slider alone can empty the list: a 1942 release under the
      default range 1950-2024 is hidden, and the page then claims the
      collection is empty. */
  lemma EmptyStateMisleads()
    ensures var d := Dvd(1, "u", "Film", Some(1942), None, None, Owned, None, None, None);
      && |FilteredDvds([d], "", DefaultFilters)| == 0
      && EmptyStateAsWritten("", DefaultFilters) == NothingYet
  {
    var d := Dvd(1, "u", "Film", Some(1942), None, None, Owned, None, None, None);
    assert !MatchesAll(d, "", DefaultFilters);
  }

  /** The heading the page evidently means: "nothing yet" exactly when the
      collection itself is empty. */
  function EmptyState(dvds: seq<Dvd>, query: string, f: FilterState): (m: EmptyMessage)
    ensures m == NothingYet <==> |dvds| == 0
  {
    if |dvds| == 0 then NothingYet else NoMatches
  }

  /** When the list is empty the corrected heading is truthful: either the
      collection has no records, or every record fails some filter. */
  lemma EmptyStateTruthful(dvds: seq<Dvd>, query: string, f: FilterState)
    requires |FilteredDvds(dvds, query, f)| == 0
    ensures EmptyState(dvds, query, f) == NoMatches ==> |dvds| > 0 && forall d :: d in dvds ==> !MatchesAll(d, query, f)
    ensures EmptyState(dvds, query, f) == NothingYet ==> dvds == []
  {
  }
}
