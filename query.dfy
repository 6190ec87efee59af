/** The read-only activity listing: an optional category filter, then an
    optional search over name and description, then an optional stable sort.
    Every stage returns a new sequence and leaves its input alone. */
module Query {
  import opened Text
  import opened Seqs
  import opened Activities

  /** Python's truthiness test `if x:` on an optional string parameter. */
  predicate Given(o: Option<string>) {
    o.Some? && o.value != ""
  }

  /** The record's category, missing read as empty, equals `category`, both
      compared lower-cased. */
  predicate InCategory(a: Activity, category: string) {
    Lower(CategoryOf(a)) == Lower(category)
  }

  /** The lower-cased search string is a substring of the lower-cased name or
      of the lower-cased description. */
  predicate MatchesSearch(a: Activity, search: string) {
    Contains(Lower(a.name), Lower(search)) || Contains(Lower(a.description), Lower(search))
  }

  /** Stage 1: keep the records of the given category, in catalog order. */
  function FilterCategory(c: Catalog, category: Option<string>): (r: Catalog)
    ensures !Given(category) ==> r == c
    ensures Given(category) ==> forall i :: 0 <= i < |r| ==> InCategory(r[i], category.value)
    ensures Given(category) ==>
      forall a :: multiset(r)[a] == if InCategory(a, category.value) then multiset(c)[a] else 0
    ensures IsSubsequence(r, c)
  {
    if Given(category) then
      Filter(c, a => InCategory(a, category.value))
    else
      SubsequenceReflexive(c);
      c
  }

  /** Stage 2: keep the records that the search string matches, in order. */
  function FilterSearch(c: Catalog, search: Option<string>): (r: Catalog)
    ensures !Given(search) ==> r == c
    ensures Given(search) ==> forall i :: 0 <= i < |r| ==> MatchesSearch(r[i], search.value)
    ensures Given(search) ==>
      forall a :: multiset(r)[a] == if MatchesSearch(a, search.value) then multiset(c)[a] else 0
    ensures IsSubsequence(r, c)
  {
    if Given(search) then
      Filter(c, a => MatchesSearch(a, search.value))
    else
      SubsequenceReflexive(c);
      c
  }

  /** The three sort orders the listing understands. */
  datatype SortKey = ByName | ByCategory | ByParticipants

  /** The `sort` parameter: exactly "name", "category" or "participants"
      selects an order; anything else, absent included, selects none. */
  function SortKeyOf(sort: Option<string>): (k: Option<SortKey>)
    ensures k == Some(ByName) <==> sort == Some("name")
    ensures k == Some(ByCategory) <==> sort == Some("category")
    ensures k == Some(ByParticipants) <==> sort == Some("participants")
  {
    if sort == Some("name") then Some(ByName)
    else if sort == Some("category") then Some(ByCategory)
    else if sort == Some("participants") then Some(ByParticipants)
    else None
  }

  /** `a` must be placed before `b` under key `k`: a smaller lower-cased name
      or category, or (the order is reversed) a larger participant count. */
  predicate Precedes(k: SortKey, a: Activity, b: Activity) {
    match k
    case ByName => LexLess(Lower(a.name), Lower(b.name))
    case ByCategory => LexLess(Lower(CategoryOf(a)), Lower(CategoryOf(b)))
    case ByParticipants => |a.participants| > |b.participants|
  }

  /** `a` and `b` have the same sort key, so a stable sort keeps their order. */
  predicate SameKey(k: SortKey, a: Activity, b: Activity) {
    match k
    case ByName => Lower(a.name) == Lower(b.name)
    case ByCategory => Lower(CategoryOf(a)) == Lower(CategoryOf(b))
    case ByParticipants => |a.participants| == |b.participants|
  }

  lemma PrecedesTransitive(k: SortKey, a: Activity, b: Activity, c: Activity)
    requires Precedes(k, a, b) && Precedes(k, b, c)
    ensures Precedes(k, a, c)
  {
    match k
    case ByName => LexLessTransitive(Lower(a.name), Lower(b.name), Lower(c.name));
    case ByCategory =>
      LexLessTransitive(Lower(CategoryOf(a)), Lower(CategoryOf(b)), Lower(CategoryOf(c)));
    case ByParticipants =>
  }

  /** Records with the same key are not ordered either way. */
  lemma SameKeyUnordered(k: SortKey, a: Activity, b: Activity)
    requires SameKey(k, a, b)
    ensures !Precedes(k, a, b) && !Precedes(k, b, a)
  {
    match k
    case ByName => LexLessIrreflexive(Lower(a.name));
    case ByCategory => LexLessIrreflexive(Lower(CategoryOf(a)));
    case ByParticipants =>
  }

  /** Two records either share a key or one precedes the other. */
  lemma PrecedesTrichotomy(k: SortKey, a: Activity, b: Activity)
    ensures SameKey(k, a, b) || Precedes(k, a, b) || Precedes(k, b, a)
  {
    match k
    case ByName => LexLessTrichotomy(Lower(a.name), Lower(b.name));
    case ByCategory => LexLessTrichotomy(Lower(CategoryOf(a)), Lower(CategoryOf(b)));
    case ByParticipants =>
  }

  /** "Does not precede" is transitive, which is what lets a record be put in
      front of a sorted sequence after one comparison. */
  lemma NotPrecedesTransitive(k: SortKey, a: Activity, b: Activity, c: Activity)
    requires !Precedes(k, a, b) && !Precedes(k, b, c)
    ensures !Precedes(k, a, c)
  {
    PrecedesTrichotomy(k, a, b);
    if Precedes(k, b, a) {
      if Precedes(k, a, c) {
        PrecedesTransitive(k, b, a, c);
      }
    }
  }

  /** No record is followed by one that should precede it. */
  predicate Sorted(k: SortKey, s: Catalog) {
    forall i, j :: 0 <= i < j < |s| ==> !Precedes(k, s[j], s[i])
  }

  /** What `Sorted` means for each key, in terms of the records' fields. */
  lemma SortedMeaning(k: SortKey, s: Catalog)
    requires Sorted(k, s)
    ensures k == ByName ==> forall i, j :: 0 <= i < j < |s| ==>
      Lower(s[i].name) == Lower(s[j].name) || LexLess(Lower(s[i].name), Lower(s[j].name))
    ensures k == ByCategory ==> forall i, j :: 0 <= i < j < |s| ==>
      Lower(CategoryOf(s[i])) == Lower(CategoryOf(s[j])) ||
      LexLess(Lower(CategoryOf(s[i])), Lower(CategoryOf(s[j])))
    ensures k == ByParticipants ==> forall i, j :: 0 <= i < j < |s| ==>
      |s[i].participants| >= |s[j].participants|
  {
    forall i, j | 0 <= i < j < |s|
      ensures SameKey(k, s[i], s[j]) || Precedes(k, s[i], s[j])
    {
      PrecedesTrichotomy(k, s[i], s[j]);
    }
  }

  /** The records of `s` that share `x`'s key, in the order `s` has them. */
  function Tied(k: SortKey, x: Activity, s: Catalog): Catalog
    decreases |s|
  {
    if s == [] then []
    else (if SameKey(k, x, s[0]) then [s[0]] else []) + Tied(k, x, s[1..])
  }

  /** Unfolds `Tied` on a sequence given as head and tail. */
  lemma TiedCons(k: SortKey, y: Activity, h: Activity, s: Catalog)
    ensures Tied(k, y, [h] + s) == (if SameKey(k, y, h) then [h] else []) + Tied(k, y, s)
  {
    assert ([h] + s)[1..] == s;
  }

  lemma {:induction false} TiedIsSubsequence(k: SortKey, x: Activity, s: Catalog)
    ensures IsSubsequence(Tied(k, x, s), s)
    decreases |s|
  {
    if s != [] {
      TiedIsSubsequence(k, x, s[1..]);
      var t := Tied(k, x, s);
      if SameKey(k, x, s[0]) {
        assert t == [s[0]] + Tied(k, x, s[1..]);
        assert t[0] == s[0] && t[1..] == Tied(k, x, s[1..]);
      } else {
        assert t == Tied(k, x, s[1..]);
      }
    }
  }

  /** Puts `x` in front of the first record of `t` that `x` does not have to
      follow, so `x` goes before the records of equal key. */
  function Insert(k: SortKey, x: Activity, t: Catalog): (r: Catalog)
    ensures multiset(r) == multiset(t) + multiset{x}
    decreases |t|
  {
    if t == [] || !Precedes(k, t[0], x) then [x] + t
    else
      assert t == [t[0]] + t[1..];
      [t[0]] + Insert(k, x, t[1..])
  }

  lemma {:induction false} InsertSorted(k: SortKey, x: Activity, t: Catalog)
    requires Sorted(k, t)
    ensures Sorted(k, Insert(k, x, t))
    decreases |t|
  {
    var r := Insert(k, x, t);
    if t == [] || !Precedes(k, t[0], x) {
      forall j | 0 < j < |r| ensures !Precedes(k, r[j], x) {
        assert r[j] == t[j - 1];
        if j > 1 {
          NotPrecedesTransitive(k, t[j - 1], t[0], x);
        }
      }
    } else {
      InsertSorted(k, x, t[1..]);
      var rest := Insert(k, x, t[1..]);
      assert r == [t[0]] + rest;
      forall j | 0 <= j < |rest| ensures !Precedes(k, rest[j], t[0]) {
        assert rest[j] in multiset(rest);
        if rest[j] == x {
          PrecedesTrichotomy(k, x, t[0]);
          if SameKey(k, x, t[0]) {
            SameKeyUnordered(k, x, t[0]);
          } else if Precedes(k, x, t[0]) {
            PrecedesTransitive(k, x, t[0], x);
            SameKeyUnordered(k, x, x);
          }
        } else {
          assert rest[j] in t[1..];
        }
      }
    }
  }

  /** Inserting `x` adds it to the front of its own tie group and leaves the
      other groups alone. */
  lemma {:induction false} InsertTied(k: SortKey, x: Activity, t: Catalog, y: Activity)
    ensures Tied(k, y, Insert(k, x, t)) == (if SameKey(k, y, x) then [x] else []) + Tied(k, y, t)
    decreases |t|
  {
    if t == [] || !Precedes(k, t[0], x) {
      TiedCons(k, y, x, t);
    } else {
      InsertTied(k, x, t[1..], y);
      InsertTiedPast(k, x, t, y);
    }
  }

  /** The step of `InsertTied` where `x` moves past the first record. */
  lemma InsertTiedPast(k: SortKey, x: Activity, t: Catalog, y: Activity)
    requires t != [] && Precedes(k, t[0], x)
    requires Tied(k, y, Insert(k, x, t[1..])) == (if SameKey(k, y, x) then [x] else []) + Tied(k, y, t[1..])
    ensures Tied(k, y, Insert(k, x, t)) == (if SameKey(k, y, x) then [x] else []) + Tied(k, y, t)
  {
    var h, rest := t[0], Insert(k, x, t[1..]);
    assert Insert(k, x, t) == [h] + rest;
    TiedCons(k, y, h, rest);
    assert t == [h] + t[1..];
    TiedCons(k, y, h, t[1..]);
    if SameKey(k, y, h) {
      assert !SameKey(k, y, x) by {
        if SameKey(k, y, x) {
          SameKeyUnordered(k, h, x);
        }
      }
      assert Tied(k, y, Insert(k, x, t)) == [h] + Tied(k, y, rest);
      assert Tied(k, y, rest) == Tied(k, y, t[1..]);
    } else {
      assert Tied(k, y, Insert(k, x, t)) == Tied(k, y, rest);
      assert Tied(k, y, t) == Tied(k, y, t[1..]);
    }
  }

  /** The model of `sorted(s, key=...)` (with `reverse=True` for participant
      counts): a stable sort, written as an insertion sort. */
  function Sort(k: SortKey, s: Catalog): (r: Catalog)
    ensures multiset(r) == multiset(s)
    ensures Sorted(k, r)
    decreases |s|
  {
    if s == [] then []
    else
      var t := Sort(k, s[1..]);
      SortStep(k, s, t);
      Insert(k, s[0], t)
  }

  /** The step of `Sort`: inserting the head into the sorted tail. */
  lemma SortStep(k: SortKey, s: Catalog, t: Catalog)
    requires s != [] && Sorted(k, t) && multiset(t) == multiset(s[1..])
    ensures Sorted(k, Insert(k, s[0], t))
    ensures multiset(Insert(k, s[0], t)) == multiset(s)
  {
    InsertSorted(k, s[0], t);
    assert s == [s[0]] + s[1..];
  }

  /** `Sort` is stable: the records of any one key keep their relative order. */
  lemma {:induction false} SortStable(k: SortKey, s: Catalog, y: Activity)
    ensures Tied(k, y, Sort(k, s)) == Tied(k, y, s)
    decreases |s|
  {
    if s != [] {
      SortStable(k, s[1..], y);
      InsertTied(k, s[0], Sort(k, s[1..]), y);
      assert s == [s[0]] + s[1..];
      TiedCons(k, y, s[0], s[1..]);
    }
  }

  /** No record of a sorted sequence has to precede its first record. */
  lemma SortedHeadFirst(k: SortKey, r: Catalog, x: Activity)
    requires Sorted(k, r) && x in multiset(r)
    ensures !Precedes(k, x, r[0])
  {
    var j :| 0 <= j < |r| && r[j] == x;
    if j == 0 {
      SameKeyUnordered(k, x, x);
    }
  }

  /** The first record is the head of its own tie group. */
  lemma TiedHead(k: SortKey, r: Catalog, x: Activity)
    requires r != [] && SameKey(k, x, r[0])
    ensures Tied(k, x, r) != [] && Tied(k, x, r)[0] == r[0]
  {
  }

  /** Two sorted, equally tied permutations of each other start with the
      same record. */
  lemma SortedHeadsEqual(k: SortKey, r1: Catalog, r2: Catalog)
    requires r1 != [] && multiset(r1) == multiset(r2)
    requires Sorted(k, r1) && Sorted(k, r2)
    requires forall y :: Tied(k, y, r1) == Tied(k, y, r2)
    ensures r2 != [] && r1[0] == r2[0]
  {
    assert r1[0] in multiset(r2);
    assert r2 != [];
    var h1, h2 := r1[0], r2[0];
    assert h2 in multiset(r1);
    SortedHeadFirst(k, r1, h2);
    SortedHeadFirst(k, r2, h1);
    PrecedesTrichotomy(k, h1, h2);
    TiedHead(k, r1, h1);
    TiedHead(k, r2, h1);
    assert Tied(k, h1, r1) == Tied(k, h1, r2);
  }

  /** Equal tie groups stay equal when the same first record is dropped. */
  lemma TiedDropHead(k: SortKey, h: Activity, a: Catalog, b: Catalog)
    requires forall y :: Tied(k, y, [h] + a) == Tied(k, y, [h] + b)
    ensures forall y :: Tied(k, y, a) == Tied(k, y, b)
  {
    forall y ensures Tied(k, y, a) == Tied(k, y, b) {
      assert Tied(k, y, [h] + a) == Tied(k, y, [h] + b);
      TiedCons(k, y, h, a);
      TiedCons(k, y, h, b);
      var n := if SameKey(k, y, h) then 1 else 0;
      assert Tied(k, y, [h] + a)[n..] == Tied(k, y, a);
      assert Tied(k, y, [h] + b)[n..] == Tied(k, y, b);
    }
  }

  /** A suffix of a sorted sequence is sorted. */
  lemma SortedTail(k: SortKey, r: Catalog)
    requires r != [] && Sorted(k, r)
    ensures Sorted(k, r[1..])
  {
    forall i, j | 0 <= i < j < |r| - 1 ensures !Precedes(k, r[1..][j], r[1..][i]) {
      assert r[1..][j] == r[j + 1] && r[1..][i] == r[i + 1];
    }
  }

  /** Dropping an equal first record keeps the three properties that
      `StableSortUnique` relates. */
  lemma DropEqualHeads(k: SortKey, r1: Catalog, r2: Catalog)
    requires r1 != [] && r2 != [] && r1[0] == r2[0]
    requires multiset(r1) == multiset(r2)
    requires Sorted(k, r1) && Sorted(k, r2)
    requires forall y :: Tied(k, y, r1) == Tied(k, y, r2)
    ensures multiset(r1[1..]) == multiset(r2[1..])
    ensures Sorted(k, r1[1..]) && Sorted(k, r2[1..])
    ensures forall y :: Tied(k, y, r1[1..]) == Tied(k, y, r2[1..])
  {
    var h := r1[0];
    assert r1 == [h] + r1[1..] && r2 == [h] + r2[1..];
    TiedDropHead(k, h, r1[1..], r2[1..]);
    Seqs.MultisetTail(r1, r2);
    SortedTail(k, r1);
    SortedTail(k, r2);
  }

  /** A sorted, stably ordered permutation is unique: any stable sort of the
      same sequence, Python's included, returns what `Sort` returns. */
  lemma {:induction false} StableSortUnique(k: SortKey, r1: Catalog, r2: Catalog)
    requires multiset(r1) == multiset(r2)
    requires Sorted(k, r1) && Sorted(k, r2)
    requires forall y :: Tied(k, y, r1) == Tied(k, y, r2)
    ensures r1 == r2
    decreases |r1|
  {
    if r1 == [] {
      assert |multiset(r2)| == 0;
    } else {
      SortedHeadsEqual(k, r1, r2);
      DropEqualHeads(k, r1, r2);
      StableSortUnique(k, r1[1..], r2[1..]);
      assert r1 == [r1[0]] + r1[1..] && r2 == [r2[0]] + r2[1..];
    }
  }

  /** Any result with the three properties of a stable sort is `Sort`'s. */
  lemma IsTheStableSort(k: SortKey, s: Catalog, r: Catalog)
    requires multiset(r) == multiset(s) && Sorted(k, r)
    requires forall y :: Tied(k, y, r) == Tied(k, y, s)
    ensures r == Sort(k, s)
  {
    forall y ensures Tied(k, y, r) == Tied(k, y, Sort(k, s)) {
      SortStable(k, s, y);
    }
    StableSortUnique(k, r, Sort(k, s));
  }

  /** Stage 3: sort by the selected key, or keep the order when none is. */
  function SortBy(c: Catalog, sort: Option<string>): (r: Catalog)
    ensures SortKeyOf(sort).None? ==> r == c
    ensures multiset(r) == multiset(c)
    ensures SortKeyOf(sort).Some? ==> Sorted(SortKeyOf(sort).value, r)
    ensures SortKeyOf(sort).Some? ==>
      forall y :: Tied(SortKeyOf(sort).value, y, r) == Tied(SortKeyOf(sort).value, y, c)
  {
    match SortKeyOf(sort)
    case None => c
    case Some(k) =>
      assert forall y :: Tied(k, y, Sort(k, c)) == Tied(k, y, c) by {
        forall y ensures Tied(k, y, Sort(k, c)) == Tied(k, y, c) {
          SortStable(k, c, y);
        }
      }
      Sort(k, c)
  }

  /** The record passes both filters that were given. */
  predicate Selected(a: Activity, category: Option<string>, search: Option<string>) {
    (!Given(category) || InCategory(a, category.value)) &&
    (!Given(search) || MatchesSearch(a, search.value))
  }

  /** The facts `Listing` promises, proved for its pipeline of three stages. */
  lemma PipelineFacts(c: Catalog, category: Option<string>, search: Option<string>, sort: Option<string>)
    ensures var r := SortBy(FilterSearch(FilterCategory(c, category), search), sort);
      && (forall i :: 0 <= i < |r| ==> Selected(r[i], category, search))
      && (forall a :: multiset(r)[a] == if Selected(a, category, search) then multiset(c)[a] else 0)
      && (SortKeyOf(sort).None? ==> IsSubsequence(r, c))
      && (SortKeyOf(sort).Some? ==> forall y :: IsSubsequence(Tied(SortKeyOf(sort).value, y, r), c))
  {
    var f1 := FilterCategory(c, category);
    var f2 := FilterSearch(f1, search);
    SubsequenceTransitive(f2, f1, c);
    var r := SortBy(f2, sort);
    forall i | 0 <= i < |r| ensures Selected(r[i], category, search) {
      assert r[i] in multiset(r);
      assert r[i] in multiset(f1);
    }
    if SortKeyOf(sort).Some? {
      var k := SortKeyOf(sort).value;
      forall y ensures IsSubsequence(Tied(k, y, r), c) {
        TiedIsSubsequence(k, y, f2);
        SubsequenceTransitive(Tied(k, y, f2), f2, c);
      }
    }
  }

  /** `GET /activities`: the selected records, each as often as in the
      catalog; in catalog order when no sort is selected, otherwise ordered by
      the key with records of equal key in catalog order. */
  function Listing(c: Catalog, category: Option<string>, search: Option<string>, sort: Option<string>): (r: Catalog)
    ensures forall i :: 0 <= i < |r| ==> Selected(r[i], category, search)
    ensures forall a :: multiset(r)[a] == if Selected(a, category, search) then multiset(c)[a] else 0
    ensures SortKeyOf(sort).None? ==> IsSubsequence(r, c)
    ensures SortKeyOf(sort).Some? ==> Sorted(SortKeyOf(sort).value, r)
    ensures SortKeyOf(sort).Some? ==>
      forall y :: IsSubsequence(Tied(SortKeyOf(sort).value, y, r), c)
  {
    PipelineFacts(c, category, search, sort);
    SortBy(FilterSearch(FilterCategory(c, category), search), sort)
  }
}
