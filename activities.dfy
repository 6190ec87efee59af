/** The activity record and the catalog, the one piece of state the service
    keeps. A record's `category` key may be missing; every other key it reads
    is always present. */
module Activities {
  import opened Text
  import opened Seqs

  datatype Option<+T> = None | Some(value: T)

  /** One extracurricular activity. `schedule` stands for the descriptive
      fields that are passed through untouched. */
  datatype Activity = Activity(
    name: string,
    description: string,
    category: Option<string>,
    schedule: string,
    maxParticipants: int,
    participants: seq<string>)

  /** The catalog, in file order. */
  type Catalog = seq<Activity>

  /** `a.get("category", "")`: a missing category reads as the empty string. */
  function CategoryOf(a: Activity): string {
    match a.category
    case None => ""
    case Some(c) => c
  }

  /** The case-insensitive key comparison used to target an activity by name. */
  predicate NameMatches(a: Activity, name: string) {
    Lower(a.name) == Lower(name)
  }

  /** The two invariants every activity is meant to keep: its roster is within
      capacity and never lists a student twice. */
  predicate ValidActivity(a: Activity) {
    |a.participants| <= a.maxParticipants && NoDuplicates(a.participants)
  }

  predicate ValidCatalog(c: Catalog) {
    forall i :: 0 <= i < |c| ==> ValidActivity(c[i])
  }
}
