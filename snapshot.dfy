/**
 * The deterministic listing order of the two tables: the comparators of
 * categoriesToSortedSlice and bookmarksToSortedSlice, an independent
 * reference definition of each as a lexicographic sort key, and the sort
 * that stands in for Go's sort.Slice.
 */
module Snapshot {
  import opened Model

  // ---------------------------------------------------------------------
  // The comparators, branch for branch

  /** categoriesToSortedSlice's less: Uncategorized before everything, then ascending order. */
  predicate CategoryLess(a: Category, b: Category)
  {
    if a.id == UncategorizedId then true
    else if b.id == UncategorizedId then false
    else a.order < b.order
  }

  /**
   * The category a bookmark's comparator looks at. Indexing a Go map with a
   * missing key yields the zero Category: empty id, order 0.
   */
  function CategoryOf(cats: map<string, Category>, id: string): Category
  {
    if id in cats then cats[id] else Category("", "", 0, "")
  }

  /**
   * bookmarksToSortedSlice's less: Uncategorized's bookmarks first, then by
   * the category's order, then by the bookmark's order, newest first on ties.
   */
  predicate BookmarkLess(cats: map<string, Category>, a: Bookmark, b: Bookmark)
  {
    var ca := CategoryOf(cats, a.categoryId);
    var cb := CategoryOf(cats, b.categoryId);
    if ca.id == UncategorizedId && cb.id != UncategorizedId then true
    else if cb.id == UncategorizedId && ca.id != UncategorizedId then false
    else if ca.order != cb.order then ca.order < cb.order
    else if a.order != b.order then a.order < b.order
    else a.timestamp > b.timestamp
  }

  /** The bookmark belongs to the reserved category, as the comparator sees it. */
  predicate InUncategorized(cats: map<string, Category>, b: Bookmark)
  {
    CategoryOf(cats, b.categoryId).id == UncategorizedId
  }

  // ---------------------------------------------------------------------
  // Reference definition: sort keys compared lexicographically

  predicate LexLess(a: seq<int>, b: seq<int>)
    decreases |a|
  {
    |a| > 0 && |b| > 0 && (a[0] < b[0] || (a[0] == b[0] && LexLess(a[1..], b[1..])))
  }

  lemma {:induction false} LexLessIrreflexive(a: seq<int>)
    ensures !LexLess(a, a)
    decreases |a|
  {
    if |a| > 0 {
      LexLessIrreflexive(a[1..]);
    }
  }

  lemma {:induction false} LexLessTransitive(a: seq<int>, b: seq<int>, c: seq<int>)
    requires LexLess(a, b) && LexLess(b, c)
    ensures LexLess(a, c)
    decreases |a|
  {
    if a[0] == b[0] && b[0] == c[0] {
      LexLessTransitive(a[1..], b[1..], c[1..]);
    }
  }

  /** The rank of a category: 0 for Uncategorized, 1 for the others. */
  function Rank(c: Category): int
  {
    if c.id == UncategorizedId then 0 else 1
  }

  function CategoryKey(c: Category): seq<int>
  {
    [Rank(c), c.order]
  }

  function BookmarkKey(cats: map<string, Category>, b: Bookmark): seq<int>
  {
    var c := CategoryOf(cats, b.categoryId);
    [Rank(c), c.order, b.order, -b.timestamp]
  }

  /** The strict order a sort over categories uses: compare their keys. */
  predicate CategoryKeyLess(a: Category, b: Category)
  {
    LexLess(CategoryKey(a), CategoryKey(b))
  }

  /**
   * Go's category comparator is the key order, except that it calls one
   * Uncategorized entry less than another (there is only one per table).
   */
  lemma CategoryLessMatchesKey(a: Category, b: Category)
    ensures !(a.id == UncategorizedId && b.id == UncategorizedId) ==>
      (CategoryLess(a, b) <==> CategoryKeyLess(a, b))
    ensures a.id == UncategorizedId && b.id == UncategorizedId ==> CategoryLess(a, b)
  {
    var ka, kb := CategoryKey(a), CategoryKey(b);
    assert ka[1..] == [a.order] && kb[1..] == [b.order];
    assert !LexLess(ka[1..][1..], kb[1..][1..]);
    assert LexLess(ka[1..], kb[1..]) <==> a.order < b.order;
  }

  /** Go's bookmark comparator is exactly the lexicographic order of the keys. */
  lemma BookmarkLessMatchesKey(cats: map<string, Category>, a: Bookmark, b: Bookmark)
    ensures BookmarkLess(cats, a, b) <==> LexLess(BookmarkKey(cats, a), BookmarkKey(cats, b))
  {
    var ka, kb := BookmarkKey(cats, a), BookmarkKey(cats, b);
    var a1, b1 := ka[1..], kb[1..];
    var a2, b2 := a1[1..], b1[1..];
    var a3, b3 := a2[1..], b2[1..];
    assert a3 == [ka[3]] && b3 == [kb[3]];
    assert !LexLess(a3[1..], b3[1..]);
    assert LexLess(a3, b3) <==> ka[3] < kb[3];
    assert LexLess(a2, b2) <==> ka[2] < kb[2] || (ka[2] == kb[2] && ka[3] < kb[3]);
    assert LexLess(a1, b1) <==> ka[1] < kb[1] || (ka[1] == kb[1] && LexLess(a2, b2));
  }

  // ---------------------------------------------------------------------
  // Strict orders and sortedness

  ghost predicate StrictOrder<T(!new)>(less: (T, T) -> bool)
  {
    && (forall a :: !less(a, a))
    && (forall a, b, c :: less(a, b) && less(b, c) ==> less(a, c))
  }

  /** No later element is less than an earlier one: what sort.Slice promises. */
  ghost predicate SortedBy<T>(s: seq<T>, less: (T, T) -> bool)
  {
    forall i, j :: 0 <= i < j < |s| ==> !less(s[j], s[i])
  }

  /** bookmarksToSortedSlice's comparator is a strict order, as sort.Slice needs. */
  lemma BookmarkLessIsStrict(cats: map<string, Category>)
    ensures forall a :: !BookmarkLess(cats, a, a)
    ensures forall a, b, c :: BookmarkLess(cats, a, b) && BookmarkLess(cats, b, c) ==> BookmarkLess(cats, a, c)
  {
    forall a
      ensures !BookmarkLess(cats, a, a)
    {
      BookmarkLessMatchesKey(cats, a, a);
      LexLessIrreflexive(BookmarkKey(cats, a));
    }
    forall a, b, c | BookmarkLess(cats, a, b) && BookmarkLess(cats, b, c)
      ensures BookmarkLess(cats, a, c)
    {
      BookmarkLessMatchesKey(cats, a, b);
      BookmarkLessMatchesKey(cats, b, c);
      BookmarkLessMatchesKey(cats, a, c);
      LexLessTransitive(BookmarkKey(cats, a), BookmarkKey(cats, b), BookmarkKey(cats, c));
    }
  }

  lemma CategoryKeyLessIsStrict()
    ensures forall a :: !CategoryKeyLess(a, a)
    ensures forall a, b, c :: CategoryKeyLess(a, b) && CategoryKeyLess(b, c) ==> CategoryKeyLess(a, c)
  {
    forall a
      ensures !CategoryKeyLess(a, a)
    {
      LexLessIrreflexive(CategoryKey(a));
    }
    forall a, b, c | CategoryKeyLess(a, b) && CategoryKeyLess(b, c)
      ensures CategoryKeyLess(a, c)
    {
      LexLessTransitive(CategoryKey(a), CategoryKey(b), CategoryKey(c));
    }
  }

  /**
   * In a listing sorted by the bookmark comparator, no bookmark of
   * Uncategorized comes after one of another category.
   */
  lemma SortedBookmarksUncategorizedFirst(cats: map<string, Category>, s: seq<Bookmark>, i: int, j: int)
    requires forall x, y :: 0 <= x < y < |s| ==> !BookmarkLess(cats, s[y], s[x])
    requires 0 <= i < j < |s|
    requires InUncategorized(cats, s[j])
    ensures InUncategorized(cats, s[i])
  {
    assert !BookmarkLess(cats, s[j], s[i]);
  }

  /**
   * Inside a sorted listing, bookmarks of one category appear by ascending
   * order, and bookmarks of equal order newest first.
   */
  lemma SortedBookmarksWithinCategory(cats: map<string, Category>, s: seq<Bookmark>, i: int, j: int)
    requires forall x, y :: 0 <= x < y < |s| ==> !BookmarkLess(cats, s[y], s[x])
    requires 0 <= i < j < |s|
    requires s[i].categoryId == s[j].categoryId
    ensures s[i].order <= s[j].order
    ensures s[i].order == s[j].order ==> s[i].timestamp >= s[j].timestamp
  {
    assert !BookmarkLess(cats, s[j], s[i]);
  }

  // ---------------------------------------------------------------------
  // The sort: an insertion sort with sort.Slice's contract

  /** Inserts x into a sorted sequence in front of the first element greater than x. */
  method InsertSorted<T(!new)>(s: seq<T>, x: T, less: (T, T) -> bool) returns (r: seq<T>)
    requires StrictOrder(less)
    requires SortedBy(s, less)
    ensures multiset(r) == multiset(s) + multiset{x}
    ensures SortedBy(r, less)
  {
    var k := 0;
    while k < |s| && !less(x, s[k])
      invariant 0 <= k <= |s|
      invariant forall i :: 0 <= i < k ==> !less(x, s[i])
    {
      k := k + 1;
    }
    r := s[..k] + [x] + s[k..];
    assert s == s[..k] + s[k..];
    assert |r| == |s| + 1 && r[k] == x;
    assert forall i :: 0 <= i < k ==> r[i] == s[i];
    assert forall i :: k < i < |r| ==> r[i] == s[i - 1];
    forall i, j | 0 <= i < j < |r|
      ensures !less(r[j], r[i])
    {
      if j == k {
        assert !less(x, s[i]);
      } else if i == k {
        assert less(x, s[k]);
      } else if i < k && k < j {
        assert !less(s[j - 1], s[i]);
      } else if j < k {
        assert !less(s[j], s[i]);
      } else {
        assert !less(s[j - 1], s[i - 1]);
      }
    }
  }

  /** Sorts by `less`: the result is a permutation with no inversion. */
  method SortBy<T(!new)>(s: seq<T>, less: (T, T) -> bool) returns (r: seq<T>)
    requires StrictOrder(less)
    ensures multiset(r) == multiset(s)
    ensures SortedBy(r, less)
  {
    r := [];
    var i := 0;
    while i < |s|
      invariant 0 <= i <= |s|
      invariant multiset(r) == multiset(s[..i])
      invariant SortedBy(r, less)
    {
      r := InsertSorted(r, s[i], less);
      assert s[..i + 1] == s[..i] + [s[i]];
      i := i + 1;
    }
    assert s[..|s|] == s;
  }

  /** A sequence with the multiset of a set holds no element twice. */
  lemma {:induction false} MultisetOfSetDistinct<T>(s: seq<T>, st: set<T>)
    requires multiset(s) == multiset(st)
    ensures forall i, j :: 0 <= i < j < |s| ==> s[i] != s[j]
    decreases |s|
  {
    if |s| > 0 {
      var x := s[0];
      var rest := s[1..];
      assert s == [x] + rest;
      assert multiset(s) == multiset{x} + multiset(rest);
      assert x in st by { assert x in multiset(s); }
      assert multiset(rest) == multiset(st - {x}) by {
        assert forall y :: multiset(st)[y] == (multiset(st - {x}) + multiset{x})[y];
        assert forall y :: multiset(rest)[y] == multiset(s)[y] - multiset{x}[y];
        assert forall y :: multiset(rest)[y] == multiset(st - {x})[y];
      }
      MultisetOfSetDistinct(rest, st - {x});
      assert multiset(rest)[x] == 0;
      forall i, j | 0 <= i < j < |s|
        ensures s[i] != s[j]
      {
        if i == 0 {
          assert s[j] == rest[j - 1];
        } else {
          assert s[i] == rest[i - 1] && s[j] == rest[j - 1];
        }
      }
    }
  }
}
