/** Queries on the sample directory, worked out on the eight records of
    src/data/doctorData.ts. Each query first fixes which records pass its
    criteria, then lets the general lemmas about `Filter` and `Query` do the
    rest. */
module SampleQueries {
  import opened Types
  import opened Seqs
  import opened Sorting
  import Text
  import opened DoctorData
  import opened ApiService

  const Cardiology := FilterOptions("Cardiology", "", "", false, "Relevance")
  const CardiologyNewPatients := FilterOptions("Cardiology", "", "", true, "Relevance")
  const Hematology := FilterOptions("Hematology", "", "", false, "Relevance")
  const LosAngelesFriday := FilterOptions("", "Los Angeles", "Friday", false, "Relevance")
  const LosAngelesFridayNewPatients := FilterOptions("", "Los Angeles", "Friday", true, "Relevance")
  const ByRating := FilterOptions("", "", "", false, "Highest Rated")

  /** Without a sort label, a query that exactly one record passes
      returns that record alone. */
  lemma SingleMatch(s: seq<Doctor>, f: FilterOptions, k: int)
    requires SortOrder(f.sortBy) == None && 0 <= k < |s|
    requires forall i :: 0 <= i < |s| ==> (MeetsAll(f)(s[i]) <==> i == k)
    ensures Query(s, f) == [s[k]]
  {
    FilterOneHit(s, MeetsAll(f), k);
  }

  lemma CardiologyRecords()
    ensures forall i :: 0 <= i < |Doctors| ==> (MeetsAll(Cardiology)(Doctors[i]) <==> i == 0)
    ensures forall i :: 0 <= i < |Doctors| ==> (MeetsAll(CardiologyNewPatients)(Doctors[i]) <==> i == 0)
    ensures Doctors[0].id == "1"
  {
    EightRecords();
  }

  /** "Cardiology" matches the primary specialty of record 1 only; the
      subspecialty "Pediatric Cardiology" of record 4 is not an exact
      match. Record 1 also takes new patients. */
  lemma CardiologyFindsRecordOne()
    ensures Query(Doctors, Cardiology) == [Doctors[0]]
    ensures Query(Doctors, CardiologyNewPatients) == [Doctors[0]]
  {
    EightRecords();
    CardiologyRecords();
    SingleMatch(Doctors, Cardiology, 0);
    SingleMatch(Doctors, CardiologyNewPatients, 0);
  }

  lemma HematologyRecords()
    ensures forall i :: 0 <= i < |Doctors| ==> (MeetsAll(Hematology)(Doctors[i]) <==> i == 5)
    ensures Doctors[5].id == "6" && Doctors[5].specialty == "Oncology"
  {
    EightRecords();
  }

  /** A subspecialty match: "Hematology" finds record 6, an oncologist. */
  lemma HematologyFindsRecordSix()
    ensures Query(Doctors, Hematology) == [Doctors[5]]
  {
    EightRecords();
    HematologyRecords();
    SingleMatch(Doctors, Hematology, 5);
  }

  lemma LosAngelesRecords()
    ensures forall i :: 0 <= i < |Doctors| ==> (MeetsAll(LosAngelesFriday)(Doctors[i]) <==> i == 2 || i == 7)
    ensures forall i :: 0 <= i < |Doctors| ==> (MeetsAll(LosAngelesFridayNewPatients)(Doctors[i]) <==> i == 7)
    ensures Doctors[2].id == "3" && Doctors[7].id == "8"
  {
    EightRecords();
  }

  /** Any directory in which exactly the records at 2 and 7 are the Friday
      providers in Los Angeles, and only 7 of them takes new patients. */
  lemma LosAngelesQueries(s: seq<Doctor>)
    requires |s| == 8
    requires forall i :: 0 <= i < |s| ==> (MeetsAll(LosAngelesFriday)(s[i]) <==> i == 2 || i == 7)
    requires forall i :: 0 <= i < |s| ==> (MeetsAll(LosAngelesFridayNewPatients)(s[i]) <==> i == 7)
    ensures Query(s, LosAngelesFriday) == [s[2], s[7]]
    ensures Query(s, LosAngelesFridayNewPatients) == [s[7]]
  {
    FilterTwoHits(s, MeetsAll(LosAngelesFriday), 2, 7);
    SingleMatch(s, LosAngelesFridayNewPatients, 7);
  }

  /** Location, weekday and intake combine: records 3 and 8 are the Los
      Angeles providers seeing patients on Fridays, and only record 8 of
      them takes new patients. */
  lemma LosAngelesOnFriday()
    ensures Query(Doctors, LosAngelesFriday) == [Doctors[2], Doctors[7]]
    ensures Query(Doctors, LosAngelesFridayNewPatients) == [Doctors[7]]
  {
    EightRecords();
    LosAngelesRecords();
    LosAngelesQueries(Doctors);
  }

  /** The four labels of the sort control: the first keeps the order, the
      others choose the three comparators. */
  lemma SortLabels()
    ensures SortOrder(SortOptions[0]) == None
    ensures SortOrder(SortOptions[1]) == Some(NameAscending)
    ensures SortOrder(SortOptions[2]) == Some(NameDescending)
    ensures SortOrder(SortOptions[3]) == Some(HighestRated)
  {
  }

  /** Any directory whose records all rate at most 4.9 and include one
      rated 4.9: sorted by rating, it keeps its length and starts with a 4.9. */
  lemma RatingQuery(s: seq<Doctor>, top: int)
    requires 0 <= top < |s| && s[top].rating == 49
    requires forall d :: d in s ==> d.rating <= 49
    ensures |Query(s, ByRating)| == |s|
    ensures Query(s, ByRating)[0].rating == 49
  {
    FilterAll(s, MeetsAll(ByRating));
    QueryTopRated(s, ByRating, s[top]);
  }

  /** Any directory as in `RatingQuery` whose first 4.9 is at `top`: the
      sort is stable, so that record comes first. */
  lemma StableTopRated(s: seq<Doctor>, top: int)
    requires 0 <= top < |s| && s[top].rating == 49
    requires forall d :: d in s ==> d.rating <= 49
    requires forall i :: 0 <= i < top ==> s[i].rating != 49
    ensures |Query(s, ByRating)| == |s|
    ensures Query(s, ByRating)[0] == s[top]
  {
    var p := TiedWith(HighestRated, s[top]);
    RatingQuery(s, top);
    FilterAll(s, MeetsAll(ByRating));
    QuerySortedStable(s, ByRating, HighestRated, s[top]);
    var q := Query(s, ByRating);
    FilterFirst(q, p, 0);
    FilterFirst(s, p, top);
  }

  /** Sorting the whole directory by rating keeps all eight records and
      puts record 2 first: it is the first of the three records rated 4.9. */
  lemma HighestRatedFirst()
    ensures |Query(Doctors, ByRating)| == 8
    ensures Query(Doctors, ByRating)[0].rating == 49
    ensures Query(Doctors, ByRating)[0] == Doctors[1]
  {
    EightRecords();
    RatingsAndReviewsInRange();
    assert Doctors[1].rating == 49 && Doctors[0].rating == 48;
    StableTopRated(Doctors, 1);
  }

  /** A name search that exactly one record passes returns that record
      alone; one that no record passes returns nothing. */
  lemma SearchHits(s: seq<Doctor>, query: string, miss: string, k: int)
    requires 0 <= k < |s|
    requires forall i :: 0 <= i < |s| ==> (NameMatches(query, s[i]) <==> i == k)
    requires forall i :: 0 <= i < |s| ==> !NameMatches(miss, s[i])
    ensures SearchIn(s, query) == [s[k]]
    ensures SearchIn(s, miss) == []
  {
    FilterOneHit(s, NameMatcher(query), k);
    FilterNone(s, NameMatcher(miss));
  }

  // Where "sarah" and "smith" occur in the lower-cased names: "sarah" at
  // offset 4 of record 1's, while every other name lacks its 's' or its
  // 'h'; each name lacks one of the letters of "smith".

  lemma RecordsOneAndTwoLetters()
    ensures Text.Contains(Text.Lower("Dr. Sarah Johnson"), "sarah")
    ensures !Text.Contains(Text.Lower("Dr. Sarah Johnson"), "smith")
    ensures !Text.Contains(Text.Lower("Dr. Michael Chen"), "sarah")
    ensures !Text.Contains(Text.Lower("Dr. Michael Chen"), "smith")
  {
    assert Text.OccursAt(Text.Lower("Dr. Sarah Johnson"), "sarah", 4);
    Text.MissingChar(Text.Lower("Dr. Sarah Johnson"), "smith", 1);
    Text.MissingChar(Text.Lower("Dr. Michael Chen"), "sarah", 0);
    Text.MissingChar(Text.Lower("Dr. Michael Chen"), "smith", 0);
  }

  lemma RecordsThreeAndFourLetters()
    ensures !Text.Contains(Text.Lower("Dr. James Wilson"), "sarah")
    ensures !Text.Contains(Text.Lower("Dr. James Wilson"), "smith")
    ensures !Text.Contains(Text.Lower("Dr. Emily Rodriguez"), "sarah")
    ensures !Text.Contains(Text.Lower("Dr. Emily Rodriguez"), "smith")
  {
    Text.MissingChar(Text.Lower("Dr. James Wilson"), "sarah", 4);
    Text.MissingChar(Text.Lower("Dr. James Wilson"), "smith", 4);
    Text.MissingChar(Text.Lower("Dr. Emily Rodriguez"), "sarah", 0);
    Text.MissingChar(Text.Lower("Dr. Emily Rodriguez"), "smith", 0);
  }

  lemma RecordsFiveAndSixLetters()
    ensures !Text.Contains(Text.Lower("Dr. David Kim"), "sarah")
    ensures !Text.Contains(Text.Lower("Dr. David Kim"), "smith")
    ensures !Text.Contains(Text.Lower("Dr. Lisa Patel"), "sarah")
    ensures !Text.Contains(Text.Lower("Dr. Lisa Patel"), "smith")
  {
    Text.MissingChar(Text.Lower("Dr. David Kim"), "sarah", 0);
    Text.MissingChar(Text.Lower("Dr. David Kim"), "smith", 0);
    Text.MissingChar(Text.Lower("Dr. Lisa Patel"), "sarah", 4);
    Text.MissingChar(Text.Lower("Dr. Lisa Patel"), "smith", 4);
  }

  lemma RecordsSevenAndEightLetters()
    ensures !Text.Contains(Text.Lower("Dr. Robert Taylor"), "sarah")
    ensures !Text.Contains(Text.Lower("Dr. Robert Taylor"), "smith")
    ensures !Text.Contains(Text.Lower("Dr. Amanda Wright"), "sarah")
    ensures !Text.Contains(Text.Lower("Dr. Amanda Wright"), "smith")
  {
    Text.MissingChar(Text.Lower("Dr. Robert Taylor"), "sarah", 0);
    Text.MissingChar(Text.Lower("Dr. Robert Taylor"), "smith", 0);
    Text.MissingChar(Text.Lower("Dr. Amanda Wright"), "sarah", 0);
    Text.MissingChar(Text.Lower("Dr. Amanda Wright"), "smith", 0);
  }

  lemma NameRecords()
    ensures forall i :: 0 <= i < |Doctors| ==> (NameMatches("sarah", Doctors[i]) <==> i == 0)
    ensures forall i :: 0 <= i < |Doctors| ==> !NameMatches("smith", Doctors[i])
  {
    EightRecords();
    assert Text.Lower("sarah") == "sarah";
    assert Text.Lower("smith") == "smith";
    RecordsOneAndTwoLetters();
    RecordsThreeAndFourLetters();
    RecordsFiveAndSixLetters();
    RecordsSevenAndEightLetters();
  }

  /** A name search ignores case: "sarah" finds Dr. Sarah Johnson and no
      one else, "smith" finds no one, and the empty query keeps the whole
      directory. */
  lemma SearchSample()
    ensures SearchDoctors("sarah") == [Doctors[0]]
    ensures SearchDoctors("smith") == []
    ensures SearchDoctors("") == Doctors
  {
    EightRecords();
    NameRecords();
    SearchHits(Doctors, "sarah", "smith", 0);
    EmptyQueryMatchesAll(Doctors);
  }
}
