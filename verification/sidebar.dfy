/** The filter sidebar: the transitions it applies to the filter state and
    the genre list it shows. Each transition changes exactly one field. */
module Sidebar {
  import opened Base
  import opened Seqs
  import opened Schema
  import opened Tally
  import opened Collection

  // ---------------------------------------------------------------------------
  // Checkbox lists
  // ---------------------------------------------------------------------------

  /** One checkbox of a list changed: checking appends the item, unchecking
      removes every copy of it and keeps the rest in order. */
  function Toggle(selected: seq<string>, item: string, checked: bool): (r: seq<string>)
    ensures checked ==> r == selected + [item]
    ensures !checked ==> item !in r && IsSubsequence(r, selected)
    ensures !checked ==> forall x :: x != item ==> multiset(r)[x] == multiset(selected)[x]
  {
    if checked then selected + [item]
    else RemoveAll(selected, item)
  }

  /** Unchecking a box just checked restores the selection it was checked in. */
  lemma UncheckUndoesCheck(selected: seq<string>, item: string)
    requires item !in selected
    ensures Toggle(Toggle(selected, item, true), item, false) == selected
  {
    AppendThenRemove(selected, item);
  }

  /** Unchecking the only item selected leaves nothing selected. */
  lemma UncheckLast(selected: seq<string>, item: string)
    requires forall x :: x in selected ==> x == item
    ensures Toggle(selected, item, false) == []
  {
    var r := Toggle(selected, item, false);
    forall x
      ensures multiset(r)[x] == 0
    {
      if x != item {
        assert multiset(selected)[x] == 0;
      }
    }
    assert multiset(r) == multiset{};
    assert |r| == |multiset(r)|;
  }

  /** `handleStatusChange`. */
  function ToggleStatus(f: FilterState, status: string, checked: bool): (r: FilterState)
    ensures r.genres == f.genres && r.yearRange == f.yearRange
    ensures r.status == Toggle(f.status, status, checked)
    ensures StatusBoxChecked(r, status) == checked
  {
    f.(status := Toggle(f.status, status, checked))
  }

  /** `handleGenreChange`. */
  function ToggleGenre(f: FilterState, genre: string, checked: bool): (r: FilterState)
    ensures r.status == f.status && r.yearRange == f.yearRange
    ensures r.genres == Toggle(f.genres, genre, checked)
    ensures GenreBoxChecked(r, genre) == checked
  {
    f.(genres := Toggle(f.genres, genre, checked))
  }

  /** `filters.status.includes(status)`. */
  predicate StatusBoxChecked(f: FilterState, status: string) {
    status in f.status
  }

  /** `filters.genres.includes(genre)`. */
  predicate GenreBoxChecked(f: FilterState, genre: string) {
    genre in f.genres
  }

  /** "All Items" is shown checked iff no status is selected. */
  predicate AllItemsChecked(f: FilterState) {
    |f.status| == 0
  }

  /** The "All Items" handler: checking clears the status selection,
      unchecking is ignored. */
  function AllItems(f: FilterState, checked: bool): (r: FilterState)
    ensures checked ==> AllItemsChecked(r) && r.genres == f.genres && r.yearRange == f.yearRange
    ensures !checked ==> r == f
  {
    if checked then f.(status := []) else f
  }

  /** With "All Items" checked the status filter passes every record, so
      the page shows exactly the records that meet the other three
      predicates. */
  lemma AllItemsLiftsStatus(dvds: seq<Dvd>, query: string, f: FilterState)
    ensures var g := AllItems(f, true);
      forall d :: d in FilteredDvds(dvds, query, g) <==>
        d in dvds && MatchesSearch(d, query) && MatchesGenre(d, f.genres) && MatchesYear(d, f.yearRange)
  {
  }

  /** Unchecking the last selected status returns to "All Items". */
  lemma UncheckLastStatus(f: FilterState, status: string)
    requires forall x :: x in f.status ==> x == status
    ensures AllItemsChecked(ToggleStatus(f, status, false))
  {
    UncheckLast(f.status, status);
  }

  /** Checking a status lets every record of that status through the status
      predicate. */
  lemma CheckedStatusPasses(f: FilterState, status: string, d: Dvd)
    requires d.status == status
    ensures MatchesStatus(d, ToggleStatus(f, status, true).status)
  {
  }

  // ---------------------------------------------------------------------------
  // Year range
  // ---------------------------------------------------------------------------

  /** The slider's bounds. */
  const SliderMin: int := 1950
  const SliderMax: int := 2024

  /** The slider hands back an ordered pair inside its bounds. */
  predicate SliderValue(r: YearRange) {
    SliderMin <= r.lo <= r.hi <= SliderMax
  }

  /** The slider's `onValueChange`: the year range is replaced, nothing
      else changes. */
  function SetYearRange(f: FilterState, range: YearRange): (r: FilterState)
    ensures r.status == f.status && r.genres == f.genres
    ensures forall d :: MatchesYear(d, r.yearRange) <==>
      !TruthyNumber(d.year) || range.lo <= d.year.value <= range.hi
  {
    f.(yearRange := range)
  }

  /** The default range is the slider's widest, and no slider position lets
      through a record dated after the slider's maximum. */
  lemma LateYearsNeverPass(f: FilterState, range: YearRange, d: Dvd)
    requires SliderValue(range)
    requires TruthyNumber(d.year) && d.year.value > SliderMax
    ensures !MatchesAll(d, "", SetYearRange(f, range))
    ensures SliderValue(DefaultFilters.yearRange)
  {
  }

  // ---------------------------------------------------------------------------
  // The genre list
  // ---------------------------------------------------------------------------

  /** How many genres are shown before "Show more genres". */
  const Shown: nat := 5

  /** `topGenres`: the histogram by non-increasing count, cut to five
      entries unless every genre is requested. */
  function DisplayedGenres(counts: Histogram, showAll: bool): (r: Histogram)
    ensures NonIncreasing(r)
    ensures |r| == if showAll || |counts| <= Shown then |counts| else Shown
    ensures multiset(r) <= multiset(counts)
    ensures showAll ==> multiset(r) == multiset(counts)
    ensures forall e, f :: e in r && f in counts && f !in r ==> f.count <= e.count
  {
    if showAll then
      var r := SortByCount(counts);
      forall f | f in counts
        ensures f in r
      {
        assert f in multiset(counts);
      }
      r
    else Top(counts, Shown)
  }

  /** The "Show more genres" button is offered iff there are more than five
      genres. */
  predicate ShowMoreVisible(counts: Histogram) {
    |counts| > Shown
  }

  /** The button appears exactly when the short list hides some genre, and
      pressing it shows every genre. */
  lemma ShowMoreMeaning(counts: Histogram)
    ensures ShowMoreVisible(counts) <==> |DisplayedGenres(counts, false)| < |counts|
    ensures |DisplayedGenres(counts, true)| == |counts|
  {
  }

  /** Every genre the sidebar shows, in either mode, carries the number of
      records whose genre list names it. */
  lemma {:induction false} DisplayedCountsAreTrue(dvds: seq<Dvd>, showAll: bool)
    ensures forall e :: e in DisplayedGenres(GenreCounts(dvds), showAll) ==>
      e.count == multiset(GenreLabels(dvds))[e.key]
  {
    var counts := GenreCounts(dvds);
    forall e | e in DisplayedGenres(counts, showAll)
      ensures e.count == multiset(GenreLabels(dvds))[e.key]
    {
      assert e in multiset(DisplayedGenres(counts, showAll));
      assert e in multiset(counts);
      var i :| 0 <= i < |counts| && counts[i] == e;
      LookupEntry(counts, i);
    }
  }
}
