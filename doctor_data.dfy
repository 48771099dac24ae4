/** The sample directory: eight constant provider records and the four
    vocabularies that populate the selection controls
    (src/data/doctorData.ts). */
module DoctorData {
  import opened Types
  import opened Seqs

  const Doctors: seq<Doctor> := [
    Doctor("1", "Dr. Sarah Johnson", "Cardiology", Some("Interventional Cardiology"),
      "https://images.pexels.com/photos/5452201/pexels-photo-5452201.jpeg?auto=compress&cs=tinysrgb&w=1260&h=750&dpr=1",
      48, 124, "Harvard Medical School", ["Monday", "Wednesday", "Friday"], "New York City", true),
    Doctor("2", "Dr. Michael Chen", "Neurology", Some("Neurological Surgery"),
      "https://images.pexels.com/photos/5215024/pexels-photo-5215024.jpeg?auto=compress&cs=tinysrgb&w=1260&h=750&dpr=1",
      49, 89, "Johns Hopkins University", ["Tuesday", "Thursday"], "Boston", true),
    Doctor("3", "Dr. James Wilson", "Orthopedics", Some("Sports Medicine"),
      "https://images.pexels.com/photos/5407206/pexels-photo-5407206.jpeg?auto=compress&cs=tinysrgb&w=1260&h=750&dpr=1",
      47, 156, "Stanford University", ["Monday", "Wednesday", "Friday"], "Los Angeles", false),
    Doctor("4", "Dr. Emily Rodriguez", "Pediatrics", Some("Pediatric Cardiology"),
      "https://images.pexels.com/photos/5214958/pexels-photo-5214958.jpeg?auto=compress&cs=tinysrgb&w=1260&h=750&dpr=1",
      49, 203, "Yale School of Medicine", ["Monday", "Tuesday", "Thursday"], "Chicago", true),
    Doctor("5", "Dr. David Kim", "Dermatology", None,
      "https://images.pexels.com/photos/5327585/pexels-photo-5327585.jpeg?auto=compress&cs=tinysrgb&w=1260&h=750&dpr=1",
      46, 78, "Columbia University", ["Wednesday", "Friday"], "Seattle", true),
    Doctor("6", "Dr. Lisa Patel", "Oncology", Some("Hematology"),
      "https://images.pexels.com/photos/5407214/pexels-photo-5407214.jpeg?auto=compress&cs=tinysrgb&w=1260&h=750&dpr=1",
      48, 167, "University of Pennsylvania", ["Monday", "Thursday", "Friday"], "Philadelphia", true),
    Doctor("7", "Dr. Robert Taylor", "Gastroenterology", None,
      "https://images.pexels.com/photos/5452293/pexels-photo-5452293.jpeg?auto=compress&cs=tinysrgb&w=1260&h=750&dpr=1",
      47, 92, "Duke University School of Medicine", ["Tuesday", "Wednesday"], "San Francisco", false),
    Doctor("8", "Dr. Amanda Wright", "Psychiatry", None,
      "https://images.pexels.com/photos/5215015/pexels-photo-5215015.jpeg?auto=compress&cs=tinysrgb&w=1260&h=750&dpr=1",
      49, 145, "University of California, San Francisco", ["Monday", "Tuesday", "Friday"], "Los Angeles", true)
  ]

  const Specialties: seq<string> := [
    "Cardiology", "Neurology", "Orthopedics", "Pediatrics", "Dermatology",
    "Oncology", "Gastroenterology", "Psychiatry", "Endocrinology", "Pulmonology",
    "Rheumatology", "Ophthalmology", "Urology", "Nephrology",
    "Allergy & Immunology", "Infectious Disease", "Hematology"
  ]

  const Locations: seq<string> := [
    "New York City", "Boston", "Los Angeles", "Chicago", "Seattle",
    "Philadelphia", "San Francisco", "Miami", "Houston", "Denver", "Atlanta",
    "Phoenix", "Austin"
  ]

  const AvailabilityOptions: seq<string> := [
    "Monday", "Tuesday", "Wednesday", "Thursday", "Friday"
  ]

  const SortOptions: seq<string> := [
    "Relevance", "Name (A-Z)", "Name (Z-A)", "Highest Rated"
  ]

  /** The ids of a list of records, in order. */
  function Ids(s: seq<Doctor>): (r: seq<string>)
    ensures |r| == |s|
    ensures forall i :: 0 <= i < |s| ==> r[i] == s[i].id
  {
    seq(|s|, i requires 0 <= i < |s| => s[i].id)
  }

  /** There are eight records. */
  lemma EightRecords()
    ensures |Doctors| == 8
  {
  }

  /** There are eight records, with ids '1' to '8' in that order and no id
      used twice. */
  lemma EightRecordsDistinctIds()
    ensures |Doctors| == 8
    ensures Ids(Doctors) == ["1", "2", "3", "4", "5", "6", "7", "8"]
    ensures Distinct(Ids(Doctors))
    ensures Distinct(Doctors)
  {
    assert Ids(Doctors) == ["1", "2", "3", "4", "5", "6", "7", "8"];
  }

  /** Every record's specialty is offered by the specialty vocabulary. */
  lemma SpecialtiesFromVocabulary()
    ensures forall d :: d in Doctors ==> d.specialty in Specialties
  {
    forall i | 0 <= i < |Doctors| ensures Doctors[i].specialty in Specialties {
      assert Doctors[i].specialty == Specialties[i];
    }
  }

  /** Every record's location is offered by the location vocabulary. */
  lemma LocationsFromVocabulary()
    ensures forall d :: d in Doctors ==> d.location in Locations
  {
    var at := [0, 1, 2, 3, 4, 5, 6, 2];
    forall i | 0 <= i < |Doctors| ensures Doctors[i].location in Locations {
      assert Doctors[i].location == Locations[at[i]];
    }
  }

  /** Every availability day of every record is one of the five weekdays the
      filter form offers. */
  lemma AvailabilityFromVocabulary()
    ensures forall d, day :: d in Doctors && day in d.availability ==> day in AvailabilityOptions
  {
    forall i, k | 0 <= i < |Doctors| && 0 <= k < |Doctors[i].availability|
      ensures Doctors[i].availability[k] in AvailabilityOptions
    {
    }
  }

  /** Every rating lies between 4.6 and 4.9 stars, so within 0 to 5, and every
      review count is positive. */
  lemma RatingsAndReviewsInRange()
    ensures forall d :: d in Doctors ==> 46 <= d.rating <= 49
    ensures forall d :: d in Doctors ==> 0 <= d.rating <= 50
    ensures forall d :: d in Doctors ==> d.reviewCount > 0
  {
    forall i | 0 <= i < |Doctors|
      ensures 46 <= Doctors[i].rating <= 49 && Doctors[i].reviewCount > 0
    {
    }
  }

  /** Records '5', '7' and '8' have no subspecialty; records '3' and '7' are
      the only ones closed to new patients. */
  lemma SubspecialtyAndIntake()
    ensures forall i :: 0 <= i < |Doctors| ==>
      (Doctors[i].subspecialty == None <==> Doctors[i].id in ["5", "7", "8"])
    ensures forall i :: 0 <= i < |Doctors| ==>
      (!Doctors[i].acceptingNewPatients <==> Doctors[i].id in ["3", "7"])
  {
  }

  /** The sort vocabulary has four labels and starts with 'Relevance', the
      default sort mode of the filter form. */
  lemma SortOptionsShape()
    ensures |SortOptions| == 4 && SortOptions[0] == "Relevance"
  {
  }
}
