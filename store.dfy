/** The service's three requests over the catalog store. The store holds the
    whole catalog and offers only "read everything" and "replace everything";
    every request reads it fresh, works on its own copy and, if it changes
    anything, writes the whole copy back. */
module Store {
  import opened Text
  import Seqs
  import opened Activities
  import opened Query
  import opened Enrollment

  class CatalogStore {
    /** The persisted catalog. */
    var catalog: Catalog
    /** How many times the catalog has been written back. */
    ghost var saves: nat

    constructor (initial: Catalog)
      ensures catalog == initial && saves == 0
    {
      catalog := initial;
      saves := 0;
    }

    /** Reads the whole catalog. */
    method Load() returns (c: Catalog)
      ensures c == catalog
    {
      c := catalog;
    }

    /** Replaces the whole catalog. */
    method Save(c: Catalog)
      modifies this
      ensures catalog == c && saves == old(saves) + 1
    {
      catalog := c;
      saves := saves + 1;
    }

    /** `GET /activities`: answers from a fresh read and writes nothing. */
    method GetActivities(category: Option<string>, search: Option<string>, sort: Option<string>)
      returns (r: Catalog)
      ensures r == Listing(catalog, category, search, sort)
    {
      var activities := Load();
      r := Listing(activities, category, search, sort);
    }

    /** `POST /activities/{name}/signup`: scans for the first activity whose
        name matches, checks the roster and then the capacity, appends and
        writes back. A refused request writes nothing. */
    method SignupForActivity(name: string, email: string) returns (outcome: Outcome)
      modifies this
      ensures Effect(outcome, catalog) == Signup(old(catalog), name, email)
      ensures saves == old(saves) + (if outcome.Ok? then 1 else 0)
    {
      var activities := Load();
      var i := 0;
      while i < |activities|
        invariant 0 <= i <= |activities|
        invariant activities == catalog == old(catalog) && saves == old(saves)
        invariant forall j :: 0 <= j < i ==> !NameMatches(activities[j], name)
      {
        var a := activities[i];
        if Lower(a.name) == Lower(name) {
          if email in a.participants {
            return AlreadySignedUp;
          }
          if |a.participants| >= a.maxParticipants {
            return Full;
          }
          activities := activities[i := a.(participants := a.participants + [email])];
          Save(activities);
          return Ok(a.name, email);
        }
        i := i + 1;
      }
      return NotFound;
    }

    /** `DELETE /activities/{name}/unregister`: scans for the first activity
        whose name matches, checks the roster, removes the first occurrence of
        the email and writes back. A refused request writes nothing. */
    method UnregisterFromActivity(name: string, email: string) returns (outcome: Outcome)
      modifies this
      ensures Effect(outcome, catalog) == Unregister(old(catalog), name, email)
      ensures saves == old(saves) + (if outcome.Ok? then 1 else 0)
    {
      var activities := Load();
      var i := 0;
      while i < |activities|
        invariant 0 <= i <= |activities|
        invariant activities == catalog == old(catalog) && saves == old(saves)
        invariant forall j :: 0 <= j < i ==> !NameMatches(activities[j], name)
      {
        var a := activities[i];
        if Lower(a.name) == Lower(name) {
          if email !in a.participants {
            return NotSignedUp;
          }
          activities := activities[i := a.(participants := Seqs.RemoveFirst(a.participants, email))];
          Save(activities);
          return Ok(a.name, email);
        }
        i := i + 1;
      }
      return NotFound;
    }

    /** Writing back what was just read changes nothing but the write count. */
    method Rewrite()
      modifies this
      ensures catalog == old(catalog) && saves == old(saves) + 1
    {
      var c := Load();
      Save(c);
    }
  }
}
