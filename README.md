# Mergington High School activity catalog — a Dafny model

This project models the activity catalog behind the school's small web
service (`src/app.py`). The catalog is a list of activity records. Each record
has a name, a description, an optional category, a capacity and a roster of
student emails. The service offers three requests:

- **Listing** (`GET /activities`): an optional case-insensitive category
  filter (a missing category reads as the empty string), then an optional
  case-insensitive substring search over name and description, then an
  optional stable sort. The sort is by lower-cased name, by lower-cased
  category, or by roster size in descending order.
- **Signup** (`POST /activities/{name}/signup`): finds the first activity
  whose name matches ignoring case. It refuses a student who is already on the
  roster, and only then refuses an activity that is full. Otherwise it appends
  the email and writes the whole catalog back.
- **Unregister** (`DELETE /activities/{name}/unregister`): finds the activity
  the same way and refuses a student who is not on the roster. Otherwise it
  removes the first occurrence of the email and writes the catalog back.

The listing and the two requests are specified as pure functions; the store
the catalog is loaded from and saved to is a class.

- `text.dfy`, module `Text`, covers the string operations:
  - ASCII lower-casing, `Lower`;
  - substring containment, `Contains` (the model of `needle in hay`);
  - Python's lexicographic `<` on strings, `LexLess`, which `sorted` uses for
    string keys.
- `seqs.dfy`, module `Seqs`, has the generic list operations:
  - order-preserving filtering, `Filter`;
  - `list.remove`, as `RemoveFirst`;
  - the subsequence relation, `IsSubsequence`.
- `activities.dfy`, module `Activities`, defines the record, the catalog and
  the two roster invariants: within capacity, and no student listed twice.
- `query.dfy`, module `Query`, holds the listing pipeline. `sorted` is
  modelled as a stable insertion sort, `Sort`. Any sorted, stable permutation
  is proved to equal it, so the choice of algorithm does not matter.
- `enrollment.dfy`, module `Enrollment`, defines signup and unregistration
  as functions from the loaded catalog to an outcome and the catalog to save,
  with the lemmas relating them.
- `store.dfy`, module `Store`, has the class `CatalogStore`:
  - its field `catalog` is the persisted state;
  - `Load` reads the whole catalog and `Save` replaces it;
  - the listing handler answers the `Query.Listing` function on a fresh read;
  - the two mutating handlers loop like the source and are proved to produce
    exactly what the `Enrollment` functions specify;
  - a ghost counter records how many times the catalog was written back.

## Model

| member | source | states |
|---|---|---|
| Text.LowerChar | src/app.py:46 | Lower-casing a character maps an ASCII capital to its small letter, shifted by 32 code points, and keeps every other character; the result is never a capital. |
| Text.Lower | src/app.py:46 | ASCII lower-casing keeps the length of the string. |
| Text.LowerAt | src/app.py:46 | Each character of the lower-cased string is the lower-cased character at the same position. |
| Text.LowerHasNoUpper | src/app.py:46 | A lower-cased string contains no capital letter. |
| Text.LowerIdempotent | src/app.py:46 | Lower-casing twice gives the same as lower-casing once. |
| Text.ContainsIffOccurs | src/app.py:50 | `needle in hay` holds exactly when the needle occurs at some position of the haystack (both directions). |
| Text.LexLessIrreflexive | src/app.py:53 | No string sorts before itself under Python's `<`. |
| Text.LexLessTransitive | src/app.py:53 | Python's string `<` is transitive. |
| Text.LexLessTrichotomy | src/app.py:53 | Any two strings are equal or ordered one way or the other. |
| Seqs.SubsequenceTransitive | src/app.py:43-50 | A subsequence of a subsequence is a subsequence, so chained filters keep the original order. |
| Seqs.Filter | src/app.py:46 | A list comprehension with a condition keeps exactly the elements that satisfy it: each one as many times as in the input, none that fails it, in the input's order. |
| Seqs.IndexOf | src/app.py:85 | The position returned holds the element, and the element does not occur before it. |
| Seqs.RemoveFirst | src/app.py:85 | Where Python's `list.remove` would raise because the element is absent, `RemoveFirst` returns the list unchanged; the handler checks membership first, so that case never arises. |
| Seqs.RemoveFirstAt | src/app.py:85 | `list.remove` takes out exactly the first occurrence; what comes before and after it stays, in order. |
| Seqs.RemoveFirstCounts | src/app.py:85 | Removing a present element shortens the list by one and takes one copy of it out of the multiset of elements. |
| Seqs.RemoveFirstRemoves | src/app.py:85 | The three facts above together, as the predicate `RemovesFirst`. |
| Seqs.RemoveAppended | src/app.py:71-85 | Removing an element just appended to a list that lacked it gives back the original list. |
| Seqs.RemoveKeepsNoDuplicates | src/app.py:85 | Removing from a duplicate-free list keeps it duplicate-free and leaves the element absent. |
| Seqs.MultisetTail | src/app.py:52-57 | Two permutations with the same first element have tails that are permutations of each other. |
| Query.FilterCategory | src/app.py:45-46 | An absent or empty category leaves the list as it is. Otherwise the result keeps exactly the records whose category ("" when missing) equals the argument ignoring case, each as often as before, in the original order. |
| Query.FilterSearch | src/app.py:48-50 | An absent or empty search leaves the list as it is. Otherwise the result keeps exactly the records whose lower-cased name or description contains the lower-cased search, each as often as before, in the original order. |
| Query.SortKeyOf | src/app.py:52-57 | Only the exact values "name", "category" and "participants" select a sort order, each its own (both directions). |
| Query.PrecedesTransitive | src/app.py:52-57 | Each sort order is transitive. |
| Query.SameKeyUnordered | src/app.py:52-57 | Records with equal keys are not ordered either way under any sort order. |
| Query.PrecedesTrichotomy | src/app.py:52-57 | Two records either share a key or one comes strictly before the other. |
| Query.NotPrecedesTransitive | src/app.py:52-57 | "Need not come before" is transitive. |
| Query.SortedMeaning | src/app.py:52-57 | A sorted list is non-decreasing on the lower-cased name or category, or non-increasing on the roster size. |
| Query.TiedIsSubsequence | src/app.py:52-57 | The records sharing one key form a subsequence of the list. |
| Query.Insert | src/app.py:52-57 | Inserting a record adds exactly that record to the multiset of records. |
| Query.InsertSorted | src/app.py:52-57 | Inserting into a sorted list gives a sorted list. |
| Query.InsertTied | src/app.py:52-57 | Insertion puts the record in front of the records of its own key and leaves every other key's records as they were. |
| Query.Sort | src/app.py:52-57 | `sorted` returns a permutation of its input that is ordered by the key. |
| Query.SortStable | src/app.py:52-57 | `sorted` is stable: the records sharing a key keep their relative order. |
| Query.StableSortUnique | src/app.py:52-57 | Two sorted, equally stable permutations of the same records are equal. |
| Query.IsTheStableSort | src/app.py:52-57 | Any permutation that is ordered and stable is exactly what `Sort` returns, whichever stable algorithm built it. |
| Query.SortBy | src/app.py:52-58 | A recognised sort key gives a sorted, stable permutation; any other value gives the list unchanged. |
| Query.PipelineFacts | src/app.py:43-58 | The three stages together keep exactly the records passing both given filters, each as often as in the catalog. The result is in catalog order when there is no sort, and each key's records are in catalog order when there is one. |
| Query.Listing | src/app.py:40-58 | The listing contains exactly the records passing the given filters, each as often as in the catalog. Without a sort it is a subsequence of the catalog. With a sort it is ordered, and the records of equal key appear in catalog order. |
| Enrollment.FindActivity | src/app.py:65-66 | The index found is that of the first record whose name matches ignoring case; none is found exactly when no record matches. Unregistration uses the same loop. |
| Enrollment.FindActivityIgnoresCase | src/app.py:66 | Names that lower-case alike find the same activity. |
| Enrollment.FindActivitySameNames | src/app.py:65-66 | The lookup depends only on the activities' names, not their rosters. |
| Enrollment.Signup | src/app.py:62-74 | An unknown name gives not-found. A student already on the roster is refused first, then a full activity. No refusal changes the catalog. A success returns the stored name and the email, appends the email to that roster and leaves every other activity and field unchanged. |
| Enrollment.Unregister | src/app.py:78-88 | An unknown name gives not-found, and a student not on the roster is refused; neither changes the catalog. A success returns the stored name and the email, removes the email from that roster and leaves every other activity and field unchanged. |
| Enrollment.RequestsIgnoreCase | src/app.py:66-82 | Both requests behave identically for names that lower-case alike. |
| Enrollment.SignupAdds | src/app.py:69-73 | After a successful signup the roster is the old roster plus the email at the end. It is one longer, still within capacity, and duplicate-free if it was before. |
| Enrollment.UnregisterRemoves | src/app.py:83-87 | A successful unregistration had the student on the roster and removes exactly the first occurrence: the other entries stay in order, the roster is one shorter, and it holds one copy fewer. |
| Enrollment.SignupKeepsValid | src/app.py:67-73 | Signup keeps every roster within capacity and duplicate-free. |
| Enrollment.UnregisterKeepsValid | src/app.py:83-87 | Unregistration keeps every roster within capacity and duplicate-free, and afterwards the student is off that roster. |
| Enrollment.SignupThenUnregister | src/app.py:62-88 | Unregistering right after a successful signup restores the original catalog and reports the same activity. |
| Enrollment.UnregisterThenSignup | src/app.py:62-88 | On a valid catalog, a student who has just unregistered can sign up again at once, and lands at the end of the roster. |
| Enrollment.ClubFound | src/app.py:65-66 | Any spelling of the name that lower-cases alike finds the activity. |
| Enrollment.ClubFirstSignup | src/app.py:65-73 | Signing up to a two-seat activity with one student succeeds and appends the email. |
| Enrollment.ClubSecondSignup | src/app.py:69-70 | Signing up to a full two-seat activity reports full and changes nothing. |
| Enrollment.ClubUnregister | src/app.py:81-87 | Unregistering the first of two students leaves only the second. |
| Enrollment.ChessClubRun | src/app.py:62-88 | A worked run on "Chess Club": a signup under "chess club" succeeds and reports the stored name; the next signup finds the club full; unregistering the first student leaves only the second. |
| Store.CatalogStore.Load | src/app.py:25-27 | Loading returns the whole persisted catalog. |
| Store.CatalogStore.Save | src/app.py:29-31 | Saving replaces the whole persisted catalog and counts one write. |
| Store.CatalogStore.Rewrite | src/app.py:25-31 | Saving what was just loaded leaves the catalog unchanged. |
| Store.CatalogStore.GetActivities | src/app.py:39-58 | The listing request answers `Query.Listing` on the persisted catalog and writes nothing. |
| Store.CatalogStore.SignupForActivity | src/app.py:61-74 | The looping signup request reports the outcome and leaves the store holding the catalog that `Signup` specifies. It writes back once on success and never on a refusal. |
| Store.CatalogStore.UnregisterFromActivity | src/app.py:77-88 | The looping unregister request reports the outcome and leaves the store holding the catalog that `Unregister` specifies. It writes back once on success and never on a refusal. |

## Left out

- The web framework (application object, static files, root redirect, routing and parameter parsing) is left out: it is wiring with no logic.
- The file and JSON encoding behind `load_activities` and `save_activities` is left out: it is a foreign library call. The store is a field holding the catalog that is read and replaced whole. Read and write failures (a missing or malformed file, a failed or partial write) are not modelled: `Load` and `Save` always succeed.
- HTTP status codes and the wording of messages and error details are left out. An `Outcome` keeps only the kind of error, or the stored name and the email on success.
- Seqs.RemoveFirst: the `ValueError` that `list.remove` raises for an absent element is not modelled, because the membership check at src/app.py:83 rules that case out before line 85.
- Text.Lower: models `str.lower` on ASCII letters only, because Python's Unicode case mapping (including mappings that change a string's length) is a large table outside this logic.
- Concurrent requests are left out. The service has no locking, so two interleaved requests can lose an update; the model is sequential.
- A record without a `participants` key is left out: every record has a roster. The listing would sort such a record as having 0 participants, and the two requests would fail with a key error when it is the matched record.
- A record without `name`, `description` or `max_participants` is left out: every record has all three. The source reads these keys without a default (src/app.py:50, 53, 66, 69), so Python raises a key error wherever it reaches one that is missing.
- A `category` key present with a null value is left out. The category is either missing, read as "", or a string.
- Fields the service only passes through are represented by `schedule` alone. They are carried unchanged like every other field.
- Store.CatalogStore.SignupForActivity and Store.CatalogStore.UnregisterFromActivity: the source mutates the matched record's roster in place inside the loaded list. The model replaces that element of the catalog sequence instead. No other reference to the record exists, so the aliasing is not observable.
- Python's `sorted` is Timsort, while the model's `Query.Sort` is an insertion sort. `Query.IsTheStableSort` shows that any ordered and stable permutation equals this one, so the result is the same.
