/** Signing a student up for an activity and taking them off again, as pure
    functions from the loaded catalog to an outcome and the catalog to save.
    The two requests of the service (see module Store) follow these exactly. */
module Enrollment {
  import opened Text
  import opened Seqs
  import opened Activities

  /** What a request reports: the activity's stored name and the email on
      success, or which check failed. */
  datatype Outcome =
    | Ok(activity: string, email: string)
    | NotFound
    | AlreadySignedUp
    | Full
    | NotSignedUp

  /** An outcome with the catalog as it stands after the request. */
  datatype Effect = Effect(outcome: Outcome, catalog: Catalog)

  /** Index of the first activity whose name matches `name` ignoring case. */
  function FindActivity(c: Catalog, name: string): (r: Option<nat>)
    ensures r.Some? ==> r.value < |c| && NameMatches(c[r.value], name)
    ensures r.Some? ==> forall j :: 0 <= j < r.value ==> !NameMatches(c[j], name)
    ensures r.None? <==> forall j :: 0 <= j < |c| ==> !NameMatches(c[j], name)
    decreases |c|
  {
    if c == [] then None
    else if NameMatches(c[0], name) then Some(0)
    else
      match FindActivity(c[1..], name)
      case None => None
      case Some(i) => Some(i + 1)
  }

  /** The lookup depends only on the lower-cased name asked for ... */
  lemma {:induction false} FindActivityIgnoresCase(c: Catalog, n1: string, n2: string)
    requires Lower(n1) == Lower(n2)
    ensures FindActivity(c, n1) == FindActivity(c, n2)
    decreases |c|
  {
    if c != [] {
      FindActivityIgnoresCase(c[1..], n1, n2);
    }
  }

  /** ... and only on the activities' names, not their rosters. */
  lemma {:induction false} FindActivitySameNames(c: Catalog, d: Catalog, name: string)
    requires |c| == |d|
    requires forall j :: 0 <= j < |c| ==> c[j].name == d[j].name
    ensures FindActivity(c, name) == FindActivity(d, name)
    decreases |c|
  {
    if c != [] {
      FindActivitySameNames(c[1..], d[1..], name);
    }
  }

  /** `POST /activities/{name}/signup`: find the activity, refuse a student who
      is already on its roster, then refuse a full activity, else append the
      email. Only a success changes the catalog, and only that roster. */
  function Signup(c: Catalog, name: string, email: string): (r: Effect)
    ensures |r.catalog| == |c|
    ensures !r.outcome.Ok? ==> r.catalog == c
    ensures r.outcome.NotFound? <==> FindActivity(c, name).None?
    ensures !r.outcome.NotSignedUp?
    ensures FindActivity(c, name).Some? ==>
      var a := c[FindActivity(c, name).value];
      && (r.outcome.AlreadySignedUp? <==> email in a.participants)
      && (r.outcome.Full? <==> email !in a.participants && |a.participants| >= a.maxParticipants)
    ensures r.outcome.Ok? ==>
      && FindActivity(c, name).Some?
      && var i := FindActivity(c, name).value;
      && r.outcome == Ok(c[i].name, email)
      && r.catalog[i] == c[i].(participants := c[i].participants + [email])
      && forall j :: 0 <= j < |c| && j != i ==> r.catalog[j] == c[j]
  {
    match FindActivity(c, name)
    case None => Effect(NotFound, c)
    case Some(i) =>
      var a := c[i];
      if email in a.participants then Effect(AlreadySignedUp, c)
      else if |a.participants| >= a.maxParticipants then Effect(Full, c)
      else Effect(Ok(a.name, email), c[i := a.(participants := a.participants + [email])])
  }

  /** `DELETE /activities/{name}/unregister`: find the activity, refuse a
      student who is not on its roster, else remove the first occurrence of the
      email. Only a success changes the catalog, and only that roster. */
  function Unregister(c: Catalog, name: string, email: string): (r: Effect)
    ensures |r.catalog| == |c|
    ensures !r.outcome.Ok? ==> r.catalog == c
    ensures r.outcome.NotFound? <==> FindActivity(c, name).None?
    ensures !r.outcome.AlreadySignedUp? && !r.outcome.Full?
    ensures FindActivity(c, name).Some? ==>
      (r.outcome.NotSignedUp? <==> email !in c[FindActivity(c, name).value].participants)
    ensures r.outcome.Ok? ==>
      && FindActivity(c, name).Some?
      && var i := FindActivity(c, name).value;
      && r.outcome == Ok(c[i].name, email)
      && r.catalog[i] == c[i].(participants := RemoveFirst(c[i].participants, email))
      && forall j :: 0 <= j < |c| && j != i ==> r.catalog[j] == c[j]
  {
    match FindActivity(c, name)
    case None => Effect(NotFound, c)
    case Some(i) =>
      var a := c[i];
      if email !in a.participants then Effect(NotSignedUp, c)
      else Effect(Ok(a.name, email), c[i := a.(participants := RemoveFirst(a.participants, email))])
  }

  /** Both requests pick their target ignoring the case of the name given. */
  lemma RequestsIgnoreCase(c: Catalog, n1: string, n2: string, email: string)
    requires Lower(n1) == Lower(n2)
    ensures Signup(c, n1, email) == Signup(c, n2, email)
    ensures Unregister(c, n1, email) == Unregister(c, n2, email)
  {
    FindActivityIgnoresCase(c, n1, n2);
  }

  /** A successful signup puts the student last on the roster, one longer than
      before, still within capacity and with no student listed twice when
      there was none before. */
  lemma SignupAdds(c: Catalog, name: string, email: string)
    requires Signup(c, name, email).outcome.Ok?
    ensures var i := FindActivity(c, name).value;
      var p := Signup(c, name, email).catalog[i].participants;
      && p == c[i].participants + [email]
      && |p| == |c[i].participants| + 1
      && p[|p| - 1] == email
      && |p| <= c[i].maxParticipants
      && (NoDuplicates(c[i].participants) ==> NoDuplicates(p))
  {
    var i := FindActivity(c, name).value;
    if NoDuplicates(c[i].participants) {
      AppendKeepsNoDuplicates(c[i].participants, email);
    }
  }

  /** A successful unregistration takes out the first occurrence of the email
      and keeps every other entry in order: one shorter, one copy fewer. */
  lemma UnregisterRemoves(c: Catalog, name: string, email: string)
    requires Unregister(c, name, email).outcome.Ok?
    ensures FindActivity(c, name).Some? && email in c[FindActivity(c, name).value].participants
    ensures var i := FindActivity(c, name).value;
      RemovesFirst(c[i].participants, Unregister(c, name, email).catalog[i].participants, email)
  {
    var i := FindActivity(c, name).value;
    var p := Unregister(c, name, email).catalog[i].participants;
    assert p == RemoveFirst(c[i].participants, email);
    RemoveFirstRemoves(c[i].participants, email);
  }

  /** Signup keeps every activity within capacity and duplicate-free. */
  lemma SignupKeepsValid(c: Catalog, name: string, email: string)
    requires ValidCatalog(c)
    ensures ValidCatalog(Signup(c, name, email).catalog)
  {
    var r := Signup(c, name, email);
    if r.outcome.Ok? {
      SignupAdds(c, name, email);
    }
  }

  /** Unregistration keeps every activity within capacity and duplicate-free,
      and then the student is no longer on that roster. */
  lemma UnregisterKeepsValid(c: Catalog, name: string, email: string)
    requires ValidCatalog(c)
    ensures ValidCatalog(Unregister(c, name, email).catalog)
    ensures Unregister(c, name, email).outcome.Ok? ==>
      email !in Unregister(c, name, email).catalog[FindActivity(c, name).value].participants
  {
    var r := Unregister(c, name, email);
    if r.outcome.Ok? {
      var i := FindActivity(c, name).value;
      RemoveKeepsNoDuplicates(c[i].participants, email);
      RemoveFirstCounts(c[i].participants, email);
    }
  }

  /** Unregistering right after a successful signup restores the catalog. */
  lemma SignupThenUnregister(c: Catalog, name: string, email: string)
    requires Signup(c, name, email).outcome.Ok?
    ensures Unregister(Signup(c, name, email).catalog, name, email)
         == Effect(Signup(c, name, email).outcome, c)
  {
    var d := Signup(c, name, email).catalog;
    var i := FindActivity(c, name).value;
    FindActivitySameNames(c, d, name);
    RemoveAppended(c[i].participants, email);
    assert d[i := d[i].(participants := c[i].participants)] == c;
  }

  /** A seat given up can be taken again at once: on a valid catalog, after a
      successful unregistration the same student can sign up again, and ends
      up last on the roster. */
  lemma UnregisterThenSignup(c: Catalog, name: string, email: string)
    requires ValidCatalog(c)
    requires Unregister(c, name, email).outcome.Ok?
    ensures var d := Unregister(c, name, email).catalog;
      var i := FindActivity(c, name).value;
      && Signup(d, name, email).outcome == Unregister(c, name, email).outcome
      && Signup(d, name, email).catalog[i].participants
         == RemoveFirst(c[i].participants, email) + [email]
  {
    var d := Unregister(c, name, email).catalog;
    FindActivitySameNames(c, d, name);
    UnregisterKeepsValid(c, name, email);
    var i := FindActivity(c, name).value;
    RemoveFirstCounts(c[i].participants, email);
  }

  /** A one-activity catalog: the club `club` with capacity two. */
  function Club(club: string, roster: seq<string>): Catalog {
    [Activity(club, "", None, "", 2, roster)]
  }

  /** Any spelling of the name that lower-cases alike finds the club. */
  lemma ClubFound(club: string, roster: seq<string>, name: string)
    requires Lower(name) == Lower(club)
    ensures FindActivity(Club(club, roster), name) == Some(0)
  {
    assert Club(club, roster)[0].name == club;
  }

  lemma ClubFirstSignup(club: string, name: string)
    requires Lower(name) == Lower(club)
    ensures Signup(Club(club, ["a@x.com"]), name, "b@x.com")
         == Effect(Ok(club, "b@x.com"), Club(club, ["a@x.com", "b@x.com"]))
  {
    var c := Club(club, ["a@x.com"]);
    ClubFound(club, ["a@x.com"], name);
    var r := Signup(c, name, "b@x.com");
    assert r.outcome == Ok(club, "b@x.com");
    assert c[0].participants + ["b@x.com"] == ["a@x.com", "b@x.com"];
    assert r.catalog == [r.catalog[0]];
  }

  lemma ClubSecondSignup(club: string, name: string)
    requires Lower(name) == Lower(club)
    ensures Signup(Club(club, ["a@x.com", "b@x.com"]), name, "c@x.com")
         == Effect(Full, Club(club, ["a@x.com", "b@x.com"]))
  {
    ClubFound(club, ["a@x.com", "b@x.com"], name);
    assert "c@x.com" !in ["a@x.com", "b@x.com"];
  }

  lemma ClubUnregister(club: string, name: string)
    requires Lower(name) == Lower(club)
    ensures Unregister(Club(club, ["a@x.com", "b@x.com"]), name, "a@x.com")
         == Effect(Ok(club, "a@x.com"), Club(club, ["b@x.com"]))
  {
    var c := Club(club, ["a@x.com", "b@x.com"]);
    ClubFound(club, ["a@x.com", "b@x.com"], name);
    assert RemoveFirst(["a@x.com", "b@x.com"], "a@x.com") == ["b@x.com"];
    var r := Unregister(c, name, "a@x.com");
    assert r.catalog == [r.catalog[0]];
  }

  /** A worked run: with capacity two and one student enrolled, a signup
      under a differently cased name succeeds, the next one finds the activity
      full and changes nothing, and unregistering the first student leaves
      only the second. */
  lemma ChessClubRun()
    ensures var s1 := Signup(Club("Chess Club", ["a@x.com"]), "chess club", "b@x.com");
      var s2 := Signup(s1.catalog, "Chess Club", "c@x.com");
      var u := Unregister(s2.catalog, "Chess Club", "a@x.com");
      && s1.outcome == Ok("Chess Club", "b@x.com")
      && s1.catalog[0].participants == ["a@x.com", "b@x.com"]
      && s2.outcome == Full && s2.catalog == s1.catalog
      && u.outcome == Ok("Chess Club", "a@x.com")
      && u.catalog[0].participants == ["b@x.com"]
  {
    LowerAt("Chess Club");
    LowerAt("chess club");
    assert Lower("chess club") == Lower("Chess Club");
    ClubFirstSignup("Chess Club", "chess club");
    ClubSecondSignup("Chess Club", "Chess Club");
    ClubUnregister("Chess Club", "Chess Club");
  }
}
