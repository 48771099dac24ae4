/** Record shapes of the directory: a provider record and the filter criteria
    (src/types/index.ts). */
module Types {

  datatype Option<T> = None | Some(value: T)

  /** One provider record. `rating` is kept in tenths of a star (4.8 is 48):
      the code only ever compares or subtracts ratings. */
  datatype Doctor = Doctor(
    id: string,
    name: string,
    specialty: string,
    subspecialty: Option<string>,
    photo: string,
    rating: int,
    reviewCount: int,
    education: string,
    availability: seq<string>,
    location: string,
    acceptingNewPatients: bool)

  /** The filter form. An empty string means "no constraint" for the first
      three fields, `false` means no constraint for the flag, and any `sortBy`
      that is not one of the three sort labels leaves the order alone. */
  datatype FilterOptions = FilterOptions(
    specialty: string,
    location: string,
    availability: string,
    acceptingNewPatients: bool,
    sortBy: string)
}
