/** Generic sequence operations behind the list handling of the catalog:
    order-preserving filtering (a list comprehension with a condition),
    `list.remove` (drop the first occurrence) and the subsequence relation. */
module Seqs {

  /** `sub` can be obtained from `s` by deleting elements, keeping the order. */
  ghost predicate IsSubsequence<T>(sub: seq<T>, s: seq<T>)
    decreases |s|
  {
    sub == [] ||
    (s != [] && ((sub[0] == s[0] && IsSubsequence(sub[1..], s[1..])) || IsSubsequence(sub, s[1..])))
  }

  lemma {:induction false} SubsequenceReflexive<T>(s: seq<T>)
    ensures IsSubsequence(s, s)
    decreases |s|
  {
    if s != [] {
      SubsequenceReflexive(s[1..]);
    }
  }

  lemma {:induction false} SubsequenceTransitive<T>(a: seq<T>, b: seq<T>, c: seq<T>)
    requires IsSubsequence(a, b) && IsSubsequence(b, c)
    ensures IsSubsequence(a, c)
    decreases |c|
  {
    if a != [] {
      assert b != [] && c != [];
      if b[0] == c[0] && IsSubsequence(b[1..], c[1..]) {
        if a[0] == b[0] && IsSubsequence(a[1..], b[1..]) {
          SubsequenceTransitive(a[1..], b[1..], c[1..]);
        } else {
          SubsequenceTransitive(a, b[1..], c[1..]);
        }
      } else {
        SubsequenceTransitive(a, b, c[1..]);
      }
    }
  }

  /** The elements of `s` that satisfy `p`, in their original order: the
      meaning of `[x for x in s if p(x)]`. */
  function Filter<T(!new)>(s: seq<T>, p: T -> bool): (r: seq<T>)
    ensures forall i :: 0 <= i < |r| ==> p(r[i])
    ensures forall x :: multiset(r)[x] == if p(x) then multiset(s)[x] else 0
    ensures IsSubsequence(r, s)
    decreases |s|
  {
    if s == [] then []
    else
      assert s == [s[0]] + s[1..];
      if p(s[0]) then [s[0]] + Filter(s[1..], p) else Filter(s[1..], p)
  }

  /** Permutations of each other with the same first element have tails
      that are permutations of each other. */
  lemma MultisetTail<T>(a: seq<T>, b: seq<T>)
    requires a != [] && b != [] && a[0] == b[0]
    requires multiset(a) == multiset(b)
    ensures multiset(a[1..]) == multiset(b[1..])
  {
    assert a == [a[0]] + a[1..] && b == [b[0]] + b[1..];
    assert multiset(a[1..]) == multiset(a) - multiset{a[0]};
    assert multiset(b[1..]) == multiset(b) - multiset{b[0]};
  }

  /** The elements are pairwise distinct. */
  predicate NoDuplicates<T(==)>(s: seq<T>) {
    forall i, j :: 0 <= i < j < |s| ==> s[i] != s[j]
  }

  /** Position of the first occurrence of `x` in `s`. */
  function IndexOf<T(==)>(s: seq<T>, x: T): (k: nat)
    requires x in s
    ensures k < |s| && s[k] == x && x !in s[..k]
  {
    if s[0] == x then 0
    else
      var k := IndexOf(s[1..], x) + 1;
      assert s[..k] == [s[0]] + s[1..][..k - 1];
      k
  }

  /** `s` with its first occurrence of `x` removed, as `list.remove` does.
      Where `list.remove` would raise because `x` does not occur, this returns
      `s` unchanged. */
  function RemoveFirst<T(==)>(s: seq<T>, x: T): (r: seq<T>)
    ensures x !in s ==> r == s
    decreases |s|
  {
    if s == [] then []
    else if s[0] == x then s[1..]
    else [s[0]] + RemoveFirst(s[1..], x)
  }

  /** What is removed is exactly the first occurrence; everything before and
      after it stays, in order. */
  lemma {:induction false} RemoveFirstAt<T>(s: seq<T>, x: T)
    requires x in s
    ensures RemoveFirst(s, x) == s[..IndexOf(s, x)] + s[IndexOf(s, x) + 1..]
    decreases |s|
  {
    if s[0] != x {
      var t := s[1..];
      assert s == [s[0]] + t;
      assert x in t;
      RemoveFirstAt(t, x);
      var k := IndexOf(t, x);
      assert IndexOf(s, x) == k + 1;
      assert RemoveFirst(s, x) == [s[0]] + (t[..k] + t[k + 1..]);
      ConsSlices(s, k);
    }
  }

  /** Putting the head back in front of the tail with position `k` dropped
      gives `s` with position `k + 1` dropped. */
  lemma ConsSlices<T>(s: seq<T>, k: nat)
    requires k + 1 < |s|
    ensures [s[0]] + (s[1..][..k] + s[1..][k + 1..]) == s[..k + 1] + s[k + 2..]
  {
    assert s[..k + 1] == [s[0]] + s[1..][..k];
    assert s[k + 2..] == s[1..][k + 1..];
  }

  /** Removing an occurrence shortens the sequence by one and takes exactly one
      copy of `x` out of its multiset of elements. */
  lemma {:induction false} RemoveFirstCounts<T>(s: seq<T>, x: T)
    requires x in s
    ensures |RemoveFirst(s, x)| == |s| - 1
    ensures multiset(RemoveFirst(s, x)) == multiset(s) - multiset{x}
    decreases |s|
  {
    var t := s[1..];
    assert s == [s[0]] + t;
    if s[0] != x {
      assert x in t;
      RemoveFirstCounts(t, x);
      assert RemoveFirst(s, x) == [s[0]] + RemoveFirst(t, x);
      assert x in multiset(t);
    }
  }

  /** `r` is `s` after taking out the first occurrence of `x`: everything
      before and after it stays in order, one element fewer, one copy of `x`
      fewer. */
  ghost predicate RemovesFirst<T>(s: seq<T>, r: seq<T>, x: T) {
    && x in s
    && r == s[..IndexOf(s, x)] + s[IndexOf(s, x) + 1..]
    && |r| == |s| - 1
    && multiset(r) == multiset(s) - multiset{x}
  }

  lemma RemoveFirstRemoves<T>(s: seq<T>, x: T)
    requires x in s
    ensures RemovesFirst(s, RemoveFirst(s, x), x)
  {
    RemoveFirstAt(s, x);
    RemoveFirstCounts(s, x);
  }

  /** Removing an element that was just appended gives back the original,
      provided it was not there before. */
  lemma RemoveAppended<T>(s: seq<T>, x: T)
    requires x !in s
    ensures RemoveFirst(s + [x], x) == s
  {
    assert IndexOf(s + [x], x) == |s|;
    RemoveFirstAt(s + [x], x);
    assert (s + [x])[..|s|] == s;
  }

  /** Dropping one element keeps a duplicate-free sequence duplicate-free, and
      the dropped element is then gone. */
  lemma RemoveKeepsNoDuplicates<T>(s: seq<T>, x: T)
    requires NoDuplicates(s) && x in s
    ensures NoDuplicates(RemoveFirst(s, x))
    ensures x !in RemoveFirst(s, x)
  {
    var k := IndexOf(s, x);
    var r := RemoveFirst(s, x);
    RemoveFirstAt(s, x);
    forall i, j | 0 <= i < j < |r| ensures r[i] != r[j] {
      DropAt(s, k, i);
      DropAt(s, k, j);
    }
    forall i | 0 <= i < |r| ensures r[i] != x {
      DropAt(s, k, i);
    }
  }

  /** Element `i` of `s` with position `k` dropped. */
  lemma DropAt<T>(s: seq<T>, k: nat, i: nat)
    requires k < |s| && i < |s| - 1
    ensures (s[..k] + s[k + 1..])[i] == s[Skip(i, k)]
  {
    if i < k {
      assert (s[..k] + s[k + 1..])[i] == s[..k][i];
    } else {
      assert (s[..k] + s[k + 1..])[i] == s[k + 1..][i - k];
    }
  }

  /** Index `i` of a sequence with position `k` dropped, as an index of the
      original. */
  function Skip(i: nat, k: nat): (j: nat)
    ensures j != k && (i < j <==> k <= i)
  {
    if i < k then i else i + 1
  }

  /** Appending an element that is not there keeps a sequence duplicate-free. */
  lemma AppendKeepsNoDuplicates<T>(s: seq<T>, x: T)
    requires NoDuplicates(s) && x !in s
    ensures NoDuplicates(s + [x])
  {
  }
}
