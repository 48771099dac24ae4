/** The directory page's state and its handlers (src/App.tsx). The
    asynchronous calls become direct calls: the search is the pure
    `SearchDoctors`, the initial fetch is `LoadDoctors`. */
module AppModel {
  import opened Types
  import opened Seqs
  import Text
  import DoctorData
  import ApiService

  /** The filter form's initial value, restored by `resetFilters`. */
  const DefaultFilters: FilterOptions := FilterOptions("", "", "", false, "Relevance")

  /** Every id but `id`. */
  function Other(id: string): string -> bool {
    (f: string) => f != id
  }

  /** The updater of `toggleFavorite`: drop every occurrence of a present
      id, append an absent one. */
  function Toggle(favorites: seq<string>, id: string): seq<string> {
    if id in favorites then Filter(favorites, Other(id)) else favorites + [id]
  }

  /** An absent id is appended at the end; a present id is removed
      everywhere; all other ids keep their relative order. */
  lemma ToggleSpec(favorites: seq<string>, id: string)
    ensures id !in favorites ==> Toggle(favorites, id) == favorites + [id]
    ensures id in favorites ==> id !in Toggle(favorites, id)
    ensures forall x :: x != id ==> (x in Toggle(favorites, id) <==> x in favorites)
    ensures Filter(Toggle(favorites, id), Other(id)) == Filter(favorites, Other(id))
  {
    if id in favorites {
      FilterIdempotent(favorites, Other(id));
    } else {
      FilterSnoc(favorites, id, Other(id));
    }
  }

  /** Toggling an absent id twice restores the exact list. */
  lemma ToggleTwiceAbsent(favorites: seq<string>, id: string)
    requires id !in favorites
    ensures Toggle(Toggle(favorites, id), id) == favorites
  {
    FilterSnoc(favorites, id, Other(id));
    FilterAll(favorites, Other(id));
  }

  /** Removing every occurrence of `id` sets its count to zero and keeps
      every other count. */
  lemma {:induction false} RemoveCounts(s: seq<string>, id: string)
    ensures multiset(Filter(s, Other(id))) == multiset(s)[id := 0]
  {
    if s != [] {
      RemoveCounts(s[1..], id);
      assert s == [s[0]] + s[1..];
    }
  }

  /** Toggling a present id twice restores the set of ids, with `id` moved
      to the end; from a repetition-free list, also the multiset. */
  lemma ToggleTwicePresent(favorites: seq<string>, id: string)
    requires id in favorites
    ensures Toggle(Toggle(favorites, id), id) == Filter(favorites, Other(id)) + [id]
    ensures forall x :: x in Toggle(Toggle(favorites, id), id) <==> x in favorites
    ensures Distinct(favorites) ==> multiset(Toggle(Toggle(favorites, id), id)) == multiset(favorites)
  {
    var once := Filter(favorites, Other(id));
    assert id !in once;
    if Distinct(favorites) {
      RemoveCounts(favorites, id);
      DistinctMultiplicity(favorites);
      assert multiset(favorites)[id] == 1;
      assert multiset(once + [id]) == multiset(once) + multiset{id};
    }
  }

  /** A repetition-free favorites list stays repetition-free. */
  lemma ToggleKeepsDistinct(favorites: seq<string>, id: string)
    requires Distinct(favorites)
    ensures Distinct(Toggle(favorites, id))
  {
    if id in favorites {
      FilterDistinct(favorites, Other(id));
    }
  }

  /** The records whose id is among the favorites. */
  function IdIn(favorites: seq<string>): Doctor -> bool {
    (d: Doctor) => d.id in favorites
  }

  /** The body of `getFavoriteDoctors`. */
  function FavoriteDoctors(allDoctors: seq<Doctor>, favorites: seq<string>): seq<Doctor> {
    Filter(allDoctors, IdIn(favorites))
  }

  /** The favorite records are the records of `allDoctors` whose id is a
      favorite, in `allDoctors` order; a favorite id that names no record is
      ignored. */
  lemma FavoriteDoctorsSpec(allDoctors: seq<Doctor>, favorites: seq<string>, a: seq<Doctor>, b: seq<Doctor>, stray: string)
    ensures forall d :: d in FavoriteDoctors(allDoctors, favorites) <==> d in allDoctors && d.id in favorites
    ensures FavoriteDoctors(a + b, favorites) == FavoriteDoctors(a, favorites) + FavoriteDoctors(b, favorites)
    // The header count `favorites.length` still counts such a stray id.
    ensures (forall d :: d in allDoctors ==> d.id != stray) ==>
      FavoriteDoctors(allDoctors, favorites + [stray]) == FavoriteDoctors(allDoctors, favorites)
  {
    FilterConcat(a, b, IdIn(favorites));
    if forall d :: d in allDoctors ==> d.id != stray {
      FilterCongruent(allDoctors, IdIn(favorites + [stray]), IdIn(favorites));
    }
  }

  class App {
    /** The module constant `doctors` that both `fetchDoctors` and
        `searchDoctors` read. */
    const sample: seq<Doctor>
    var allDoctors: seq<Doctor>
    var filteredDoctors: seq<Doctor>
    var searchQuery: string
    var filters: FilterOptions
    var favorites: seq<string>

    /** The full list is empty until the fetch completes and is the sample
        data afterwards; from then on the view is drawn from it. */
    ghost predicate Valid()
      reads this
    {
      && (allDoctors == [] || allDoctors == sample)
      && (allDoctors != [] ==> multiset(filteredDoctors) <= multiset(allDoctors))
    }

    /** The first render (lines 12-24). */
    constructor ()
      ensures Valid() && sample == DoctorData.Doctors
      ensures allDoctors == [] && filteredDoctors == [] && searchQuery == ""
      ensures filters == DefaultFilters && favorites == []
    {
      sample := DoctorData.Doctors;
      allDoctors := [];
      filteredDoctors := [];
      searchQuery := "";
      filters := DefaultFilters;
      favorites := [];
      new;
      assert allDoctors == [];
    }

    /** The mount effect's fetch completing (lines 27-33): both lists become
        the sample data. */
    method LoadDoctors()
      requires Valid()
      modifies this
      ensures Valid()
      ensures allDoctors == sample && filteredDoctors == sample
      ensures searchQuery == old(searchQuery) && filters == old(filters) && favorites == old(favorites)
    {
      allDoctors := sample;
      filteredDoctors := sample;
    }

    /** The mount effect's restore (lines 44-47): `saved` is the parsed list
        stored under the favorites key, or None when the key holds nothing. */
    method RestoreFavorites(saved: Option<seq<string>>)
      requires Valid()
      modifies this
      ensures Valid()
      ensures favorites == (if saved.Some? then saved.value else old(favorites))
      ensures allDoctors == old(allDoctors) && filteredDoctors == old(filteredDoctors)
      ensures searchQuery == old(searchQuery) && filters == old(filters)
    {
      if saved.Some? {
        favorites := saved.value;
      }
    }

    /** The filter form's `setFilters`: only the criteria change, the view
        waits for `ApplyFilters`. */
    method SetFilters(f: FilterOptions)
      requires Valid()
      modifies this
      ensures Valid()
      ensures filters == f
      ensures allDoctors == old(allDoctors) && filteredDoctors == old(filteredDoctors)
      ensures searchQuery == old(searchQuery) && favorites == old(favorites)
    {
      filters := f;
    }

    /** `handleSearch` (lines 56-64): the raw query is always stored; a blank
        query shows the full list, any other the name matches of the raw,
        untrimmed query. */
    method HandleSearch(query: string)
      requires Valid()
      modifies this
      ensures Valid()
      ensures searchQuery == query
      ensures filteredDoctors == if Text.IsBlank(query) then allDoctors else ApiService.SearchIn(sample, query)
      ensures allDoctors == old(allDoctors) && filters == old(filters) && favorites == old(favorites)
    {
      searchQuery := query;
      if Text.IsBlank(query) {
        filteredDoctors := allDoctors;
      } else {
        filteredDoctors := ApiService.SearchIn(sample, query);
        FilterSubMultiset(sample, ApiService.NameMatcher(query));
      }
    }

    /** `applyFilters` (lines 77-85): while a search query is stored the
        filter runs on the current view, otherwise on the full list. Under an
        active search the view can therefore only keep or lose records. */
    method ApplyFilters()
      requires Valid()
      modifies this
      ensures Valid()
      ensures filteredDoctors == ApiService.Query(
        if searchQuery != "" then old(filteredDoctors) else allDoctors, filters)
      ensures searchQuery != "" ==> multiset(filteredDoctors) <= multiset(old(filteredDoctors))
      ensures searchQuery == "" ==> multiset(filteredDoctors) <= multiset(allDoctors)
      ensures allDoctors == old(allDoctors) && searchQuery == old(searchQuery)
      ensures filters == old(filters) && favorites == old(favorites)
    {
      var filtered := ApiService.FilterDoctors(
        if searchQuery != "" then filteredDoctors else allDoctors,
        filters.specialty, filters.location, filters.availability,
        filters.acceptingNewPatients, filters.sortBy);
      filteredDoctors := filtered;
    }

    /** `resetFilters` (lines 94-103): the criteria return to their initial
        value; the view becomes the full list only when no search query is
        stored, and is otherwise left as it is. */
    method ResetFilters()
      requires Valid()
      modifies this
      ensures Valid()
      ensures filters == DefaultFilters
      ensures filteredDoctors == if searchQuery != "" then old(filteredDoctors) else allDoctors
      ensures allDoctors == old(allDoctors) && searchQuery == old(searchQuery) && favorites == old(favorites)
    {
      filters := DefaultFilters;
      filteredDoctors := if searchQuery != "" then filteredDoctors else allDoctors;
    }

    /** `toggleFavorite` (lines 106-114). */
    method ToggleFavorite(id: string)
      requires Valid()
      modifies this
      ensures Valid()
      ensures favorites == Toggle(old(favorites), id)
      ensures Distinct(old(favorites)) ==> Distinct(favorites)
      ensures allDoctors == old(allDoctors) && filteredDoctors == old(filteredDoctors)
      ensures searchQuery == old(searchQuery) && filters == old(filters)
    {
      if Distinct(favorites) {
        ToggleKeepsDistinct(favorites, id);
      }
      favorites := Toggle(favorites, id);
    }

    /** `getFavoriteDoctors` (lines 117-119). */
    function GetFavoriteDoctors(): (r: seq<Doctor>)
      reads this
      ensures forall d :: d in r <==> d in allDoctors && d.id in favorites
      ensures |r| <= |allDoctors|
    {
      FavoriteDoctors(allDoctors, favorites)
    }

    /** Once the sample data is loaded, every record in the view is one of
        its records, and none appears twice. */
    lemma ViewDrawnFromAll()
      requires Valid() && allDoctors == DoctorData.Doctors
      ensures forall d :: d in filteredDoctors ==> d in allDoctors
      ensures Distinct(filteredDoctors)
    {
      DoctorData.EightRecords();
      DoctorData.EightRecordsDistinctIds();
      SubMultisetOfDistinct(filteredDoctors, allDoctors);
    }
  }
}
