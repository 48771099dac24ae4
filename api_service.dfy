/** The query engine: name search and the structured filter with its
    optional sort (src/services/apiService.ts). The simulated latency of
    `fetchDoctors` and `searchDoctors` is not modelled; both are direct
    calls. */
module ApiService {
  import opened Types
  import opened Seqs
  import opened Sorting
  import Text
  import DoctorData

  // ---------------------------------------------------------------------
  // Search by name (lines 15-24)

  /** The record's lower-cased name contains the lower-cased query. */
  predicate NameMatches(query: string, d: Doctor) {
    Text.Contains(Text.Lower(d.name), Text.Lower(query))
  }

  function NameMatcher(query: string): Doctor -> bool {
    d => NameMatches(query, d)
  }

  /** The body of `searchDoctors` on a given list. */
  function SearchIn(doctors: seq<Doctor>, query: string): seq<Doctor> {
    Filter(doctors, NameMatcher(query))
  }

  /** `searchDoctors(query)`: it always searches the sample data. */
  function SearchDoctors(query: string): seq<Doctor> {
    SearchIn(DoctorData.Doctors, query)
  }

  /** The search keeps exactly the records whose name contains the query,
      case-insensitively, in their input order. */
  lemma SearchInSpec(doctors: seq<Doctor>, query: string, a: seq<Doctor>, b: seq<Doctor>)
    ensures forall d :: d in SearchIn(doctors, query) <==> d in doctors && NameMatches(query, d)
    ensures SearchIn(a + b, query) == SearchIn(a, query) + SearchIn(b, query)
    ensures |SearchIn(doctors, query)| <= |doctors|
  {
    FilterConcat(a, b, NameMatcher(query));
  }

  /** The empty query matches every record. */
  lemma EmptyQueryMatchesAll(doctors: seq<Doctor>)
    ensures SearchIn(doctors, "") == doctors
  {
    forall d | d in doctors ensures NameMatches("", d) {
      Text.ContainsEmpty(Text.Lower(d.name));
    }
    FilterAll(doctors, NameMatcher(""));
  }

  /** The search ignores the case of the query: a query and its lower-cased
      form find the same records. */
  lemma SearchIgnoresQueryCase(doctors: seq<Doctor>, query: string)
    ensures SearchIn(doctors, Text.Lower(query)) == SearchIn(doctors, query)
  {
    Text.LowerIdempotent(query);
    FilterCongruent(doctors, NameMatcher(Text.Lower(query)), NameMatcher(query));
  }

  // ---------------------------------------------------------------------
  // Structured filter (lines 27-59)

  /** Primary specialty or subspecialty equals `specialty` exactly. */
  predicate HasSpecialty(specialty: string, d: Doctor) {
    d.specialty == specialty || d.subspecialty == Some(specialty)
  }

  predicate HasLocation(location: string, d: Doctor) {
    d.location == location
  }

  predicate HasDay(day: string, d: Doctor) {
    day in d.availability
  }

  // The four filter callbacks of lines 39-58.
  function SpecialtyIs(specialty: string): Doctor -> bool {
    (d: Doctor) => HasSpecialty(specialty, d)
  }

  function LocationIs(location: string): Doctor -> bool {
    (d: Doctor) => HasLocation(location, d)
  }

  function AvailableOn(day: string): Doctor -> bool {
    (d: Doctor) => HasDay(day, d)
  }

  function AcceptsNewPatients(): Doctor -> bool {
    (d: Doctor) => d.acceptingNewPatients
  }

  /** `d` meets every active criterion of `f`: an empty string and a false
      flag impose nothing. */
  predicate Meets(f: FilterOptions, d: Doctor) {
    && (f.specialty != "" ==> HasSpecialty(f.specialty, d))
    && (f.location != "" ==> HasLocation(f.location, d))
    && (f.availability != "" ==> HasDay(f.availability, d))
    && (f.acceptingNewPatients ==> d.acceptingNewPatients)
  }

  function MeetsAll(f: FilterOptions): Doctor -> bool {
    d => Meets(f, d)
  }

  /** The sort step of lines 62-77: the three labels choose a comparator;
      the empty string and every other label leave the order alone. */
  function SortOrder(sortBy: string): (r: Option<Order>)
    ensures r == Some(NameAscending) <==> sortBy == "Name (A-Z)"
    ensures r == Some(NameDescending) <==> sortBy == "Name (Z-A)"
    ensures r == Some(HighestRated) <==> sortBy == "Highest Rated"
  {
    if sortBy == "" then None
    else if sortBy == "Name (A-Z)" then Some(NameAscending)
    else if sortBy == "Name (Z-A)" then Some(NameDescending)
    else if sortBy == "Highest Rated" then Some(HighestRated)
    else None
  }

  /** What `filterDoctors` returns: the records meeting every active
      criterion, in input order, then stably sorted if `sortBy` names a sort. */
  function Query(doctors: seq<Doctor>, f: FilterOptions): seq<Doctor> {
    var kept := Filter(doctors, MeetsAll(f));
    match SortOrder(f.sortBy)
    case None => kept
    case Some(o) => SortBy(o, kept)
  }

  /** The four filters applied one after the other, as the code does, keep
      the same records as the single conjunction `Meets`. */
  lemma {:induction false} FilterChain(doctors: seq<Doctor>, f: FilterOptions)
    ensures
      var s1 := if f.specialty != "" then Filter(doctors, SpecialtyIs(f.specialty)) else doctors;
      var s2 := if f.location != "" then Filter(s1, LocationIs(f.location)) else s1;
      var s3 := if f.availability != "" then Filter(s2, AvailableOn(f.availability)) else s2;
      var s4 := if f.acceptingNewPatients then Filter(s3, AcceptsNewPatients()) else s3;
      s4 == Filter(doctors, MeetsAll(f))
  {
    var f1 := f.(location := "", availability := "", acceptingNewPatients := false);
    var f2 := f1.(location := f.location);
    var f3 := f2.(availability := f.availability);
    var s1 := if f.specialty != "" then Filter(doctors, SpecialtyIs(f.specialty)) else doctors;
    if f.specialty != "" {
      FilterFilter(doctors, (d: Doctor) => true, SpecialtyIs(f.specialty), MeetsAll(f1));
      FilterAll(doctors, (d: Doctor) => true);
    } else {
      FilterAll(doctors, MeetsAll(f1));
    }
    assert s1 == Filter(doctors, MeetsAll(f1));
    var s2 := if f.location != "" then Filter(s1, LocationIs(f.location)) else s1;
    if f.location != "" {
      FilterFilter(doctors, MeetsAll(f1), LocationIs(f.location), MeetsAll(f2));
    } else {
      assert MeetsAll(f2) == MeetsAll(f1);
    }
    var s3 := if f.availability != "" then Filter(s2, AvailableOn(f.availability)) else s2;
    if f.availability != "" {
      FilterFilter(doctors, MeetsAll(f2), AvailableOn(f.availability), MeetsAll(f3));
    } else {
      assert MeetsAll(f3) == MeetsAll(f2);
    }
    if f.acceptingNewPatients {
      FilterFilter(doctors, MeetsAll(f3), AcceptsNewPatients(), MeetsAll(f));
    } else {
      assert f == f3;
    }
  }

  /** `filterDoctors`: the four filters one after the other, then, for a
      sort label, a stable sort of a fresh array holding the kept records. */
  method FilterDoctors(doctors: seq<Doctor>, specialty: string, location: string,
                       availability: string, acceptingNewPatients: bool, sortBy: string)
    returns (r: seq<Doctor>)
    ensures r == Query(doctors, FilterOptions(specialty, location, availability, acceptingNewPatients, sortBy))
    ensures forall d :: d in r ==> d in doctors
    ensures forall d :: d in r ==>
      Meets(FilterOptions(specialty, location, availability, acceptingNewPatients, sortBy), d)
    ensures forall d :: d in doctors ==>
      (Meets(FilterOptions(specialty, location, availability, acceptingNewPatients, sortBy), d) ==> d in r)
    ensures multiset(r) <= multiset(doctors)
  {
    var f := FilterOptions(specialty, location, availability, acceptingNewPatients, sortBy);
    var filtered := ApplyCriteria(doctors, f);
    match SortOrder(sortBy) {
      case Some(o) =>
        r := SortedCopy(filtered, o);
      case None =>
        r := filtered;
    }
    QueryContents(doctors, f);
  }

  /** The filter phase of `filterDoctors` (lines 35-59): each active
      criterion in turn narrows the list. */
  method ApplyCriteria(doctors: seq<Doctor>, f: FilterOptions) returns (filtered: seq<Doctor>)
    ensures filtered == Filter(doctors, MeetsAll(f))
  {
    filtered := doctors;
    if f.specialty != "" {
      filtered := Filter(filtered, SpecialtyIs(f.specialty));
    }
    if f.location != "" {
      filtered := Filter(filtered, LocationIs(f.location));
    }
    if f.availability != "" {
      filtered := Filter(filtered, AvailableOn(f.availability));
    }
    if f.acceptingNewPatients {
      filtered := Filter(filtered, AcceptsNewPatients());
    }
    FilterChain(doctors, f);
  }

  /** The sort phase (lines 62-77): sorts a fresh copy in place and returns
      it. */
  method SortedCopy(s: seq<Doctor>, o: Order) returns (r: seq<Doctor>)
    ensures r == SortBy(o, s)
  {
    var a := new Doctor[|s|](k requires 0 <= k < |s| => s[k]);
    assert a[..] == s;
    InsertionSort(a, o);
    r := a[..];
  }

  /** Soundness and completeness of the query: its result holds exactly the
      input records meeting every active criterion, none more often than in
      the input. */
  lemma QueryContents(doctors: seq<Doctor>, f: FilterOptions)
    ensures forall d :: d in Query(doctors, f) <==> d in doctors && Meets(f, d)
    ensures multiset(Query(doctors, f)) <= multiset(doctors)
    ensures |Query(doctors, f)| <= |doctors|
  {
    var kept := Filter(doctors, MeetsAll(f));
    FilterSubMultiset(doctors, MeetsAll(f));
    match SortOrder(f.sortBy)
    case None =>
    case Some(o) =>
      SortByPermutes(o, kept);
      assert forall d :: d in SortBy(o, kept) <==> d in multiset(SortBy(o, kept));
      assert forall d :: d in kept <==> d in multiset(kept);
  }

  /** With no criterion active and no sort label, the query returns its
      input unchanged. */
  lemma QueryIdentity(doctors: seq<Doctor>, sortBy: string)
    requires SortOrder(sortBy) == None
    ensures Query(doctors, FilterOptions("", "", "", false, sortBy)) == doctors
  {
    FilterAll(doctors, MeetsAll(FilterOptions("", "", "", false, sortBy)));
  }

  /** Without a sort label the query keeps the matching records in input
      order: it is a filter, and distributes over concatenation. */
  lemma QueryUnsortedInOrder(a: seq<Doctor>, b: seq<Doctor>, f: FilterOptions)
    requires SortOrder(f.sortBy) == None
    ensures Query(a, f) == Filter(a, MeetsAll(f))
    ensures Query(a + b, f) == Query(a, f) + Query(b, f)
  {
    FilterConcat(a, b, MeetsAll(f));
  }

  /** With a sort label the query is a permutation of the matching records,
      sorted by the label's comparator, and records the comparator ties keep
      their input order. */
  lemma QuerySortedStable(doctors: seq<Doctor>, f: FilterOptions, o: Order, k: Doctor)
    requires SortOrder(f.sortBy) == Some(o)
    ensures multiset(Query(doctors, f)) == multiset(Filter(doctors, MeetsAll(f)))
    ensures Sorted(o, Query(doctors, f))
    ensures Filter(Query(doctors, f), TiedWith(o, k))
         == Filter(Filter(doctors, MeetsAll(f)), TiedWith(o, k))
  {
    var kept := Filter(doctors, MeetsAll(f));
    SortByPermutes(o, kept);
    SortBySorted(o, kept);
    SortByStable(o, kept, k);
  }

  /** Under "Highest Rated" the first record of the result is a matching
      record rated at least as high as every matching record. */
  lemma QueryTopRated(doctors: seq<Doctor>, f: FilterOptions, d: Doctor)
    requires SortOrder(f.sortBy) == Some(HighestRated)
    requires d in doctors && Meets(f, d)
    ensures |Query(doctors, f)| > 0
    ensures Query(doctors, f)[0] in doctors && Meets(f, Query(doctors, f)[0])
    ensures Query(doctors, f)[0].rating >= d.rating
  {
    var q := Query(doctors, f);
    QueryContents(doctors, f);
    assert d in q;
    var j :| 0 <= j < |q| && q[j] == d;
    QuerySortedStable(doctors, f, HighestRated, d);
    if j > 0 { SortedMeaning(HighestRated, q, 0, j); }
  }

  /** Running the query on its own result with the same criteria changes
      nothing. */
  lemma QueryIdempotent(doctors: seq<Doctor>, f: FilterOptions)
    ensures Query(Query(doctors, f), f) == Query(doctors, f)
  {
    var kept := Filter(doctors, MeetsAll(f));
    match SortOrder(f.sortBy)
    case None =>
      FilterIdempotent(doctors, MeetsAll(f));
    case Some(o) =>
      var sorted := SortBy(o, kept);
      QueryContents(doctors, f);
      FilterAll(sorted, MeetsAll(f));
      SortByIdempotent(o, kept);
  }
}
