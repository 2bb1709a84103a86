/**
 * Loading the stored file: turning the stored lists into tables, and the
 * one-time conversion of the older shape (a flat list of bookmarks that name
 * their category) into the category table and bookmarks that reference it.
 */
module Migration {
  import opened Model

  // ---------------------------------------------------------------------
  // sliceToCategoryMap / sliceToBookmarkMap

  /**
   * The table built by indexing a list by `key`, one element after the
   * other: a later element replaces an earlier one with the same key.
   */
  function KeyedMap<T>(s: seq<T>, key: T -> string): map<string, T>
    decreases |s|
  {
    if |s| == 0 then map[] else KeyedMap(s[..|s| - 1], key)[key(s[|s| - 1]) := s[|s| - 1]]
  }

  /** Position i holds the last element of s with its key. */
  ghost predicate LastWithKey<T>(s: seq<T>, key: T -> string, i: int)
  {
    0 <= i < |s| && forall j :: i < j < |s| ==> key(s[j]) != key(s[i])
  }

  /** The table holds exactly the keys of the list. */
  lemma {:induction false} KeyedMapKeys<T>(s: seq<T>, key: T -> string)
    ensures KeyedMap(s, key).Keys == (set i | 0 <= i < |s| :: key(s[i]))
    decreases |s|
  {
    if |s| > 0 {
      var p := s[..|s| - 1];
      KeyedMapKeys(p, key);
      assert forall i :: 0 <= i < |p| ==> p[i] == s[i];
      assert (set i | 0 <= i < |s| :: key(s[i])) == (set i | 0 <= i < |p| :: key(p[i])) + {key(s[|s| - 1])};
    }
  }

  /** Under each key the table holds the last element that carries it. */
  lemma {:induction false} KeyedMapLastWins<T>(s: seq<T>, key: T -> string, i: int)
    requires LastWithKey(s, key, i)
    ensures key(s[i]) in KeyedMap(s, key) && KeyedMap(s, key)[key(s[i])] == s[i]
    decreases |s|
  {
    if i < |s| - 1 {
      var p := s[..|s| - 1];
      assert LastWithKey(p, key, i);
      KeyedMapLastWins(p, key, i);
    }
  }

  /** Every entry of the table is stored under its own key. */
  lemma {:induction false} KeyedMapKeyedByKey<T>(s: seq<T>, key: T -> string)
    ensures forall k :: k in KeyedMap(s, key) ==> key(KeyedMap(s, key)[k]) == k
    decreases |s|
  {
    if |s| > 0 {
      KeyedMapKeyedByKey(s[..|s| - 1], key);
    }
  }

  function IdOfCategory(c: Category): string { c.id }

  function IdOfBookmark(b: Bookmark): string { b.id }

  function IdOfRecord(r: LegacyBookmark): string { r.id }

  // ---------------------------------------------------------------------
  // The legacy conversion

  /** A record without a category name belongs to Uncategorized. */
  function NormalizedName(name: string): string
  {
    if name == "" then UncategorizedName else name
  }

  /** The bookmark a legacy record becomes, filed under category `cid`. */
  function Convert(r: LegacyBookmark, cid: string): Bookmark
  {
    Bookmark(r.id, r.url, r.title, "", cid, r.timestamp, r.favicon, r.order, None, "")
  }

  /**
   * The state of the conversion loop: the two tables, the name-to-id map of
   * the categories made so far, and the order the next new category gets.
   */
  datatype Conversion = Conversion(
    categories: map<string, Category>,
    bookmarks: map<string, Bookmark>,
    names: map<string, string>,
    nextOrder: int)

  function Start(): Conversion
  {
    Conversion(map[UncategorizedId := DefaultUncategorized()], map[], map[], 1)
  }

  /**
   * One pass of the loop. The id of a new category is `newId(n)` for the
   * n-th category made (uuid.New in the program).
   */
  function Step(st: Conversion, r: LegacyBookmark, newId: int -> string): Conversion
  {
    var name := NormalizedName(r.category);
    if name == UncategorizedName then
      st.(bookmarks := st.bookmarks[r.id := Convert(r, UncategorizedId)])
    else if name in st.names then
      st.(bookmarks := st.bookmarks[r.id := Convert(r, st.names[name])])
    else
      var cid := newId(st.nextOrder);
      Conversion(st.categories[cid := Category(cid, name, st.nextOrder, "")],
                 st.bookmarks[r.id := Convert(r, cid)],
                 st.names[name := cid],
                 st.nextOrder + 1)
  }

  /** The loop run over all records; at most one category is made per record. */
  function Migrate(records: seq<LegacyBookmark>, newId: int -> string): (st: Conversion)
    ensures 1 <= st.nextOrder <= |records| + 1
    decreases |records|
  {
    if |records| == 0 then Start()
    else Step(Migrate(records[..|records| - 1], newId), records[|records| - 1], newId)
  }

  /**
   * Reference definition: the category names other than Uncategorized in
   * the order they are first met in the records, each once.
   */
  function FirstSeenNames(records: seq<LegacyBookmark>): seq<string>
    decreases |records|
  {
    if |records| == 0 then []
    else AddName(FirstSeenNames(records[..|records| - 1]), NormalizedName(records[|records| - 1].category))
  }

  function AddName(d: seq<string>, name: string): seq<string>
  {
    if name == UncategorizedName || name in d then d else d + [name]
  }

  /**
   * FirstSeenNames lists every category name of the records except
   * Uncategorized, each once, and nothing else.
   */
  lemma {:induction false} FirstSeenNamesExact(records: seq<LegacyBookmark>)
    ensures var d := FirstSeenNames(records);
      && (forall i, j :: 0 <= i < j < |d| ==> d[i] != d[j])
      && (forall i :: 0 <= i < |d| ==> d[i] != UncategorizedName)
      && (forall q :: 0 <= q < |records| ==>
            NormalizedName(records[q].category) == UncategorizedName || NormalizedName(records[q].category) in d)
      && (forall x :: x in d ==> exists q :: 0 <= q < |records| && NormalizedName(records[q].category) == x)
    decreases |records|
  {
    if |records| > 0 {
      var p := records[..|records| - 1];
      var last := |records| - 1;
      FirstSeenNamesExact(p);
      assert forall q :: 0 <= q < |p| ==> p[q] == records[q];
      var d0 := FirstSeenNames(p);
      forall x | x in FirstSeenNames(records)
        ensures exists q :: 0 <= q < |records| && NormalizedName(records[q].category) == x
      {
        if x in d0 {
          var q :| 0 <= q < |p| && NormalizedName(p[q].category) == x;
          assert NormalizedName(records[q].category) == x;
        } else {
          assert NormalizedName(records[last].category) == x;
        }
      }
    }
  }

  /**
   * First-seen order: wherever the j-th name occurs, every earlier name of
   * the list has already occurred before it.
   */
  lemma {:induction false} FirstSeenOrder(records: seq<LegacyBookmark>, i: int, j: int, q: int)
    requires 0 <= i < j < |FirstSeenNames(records)|
    requires 0 <= q < |records|
    requires NormalizedName(records[q].category) == FirstSeenNames(records)[j]
    ensures exists p :: 0 <= p < q && NormalizedName(records[p].category) == FirstSeenNames(records)[i]
    decreases |records|
  {
    var n := |records|;
    var pre := records[..n - 1];
    var d0 := FirstSeenNames(pre);
    var d := FirstSeenNames(records);
    var name := NormalizedName(records[n - 1].category);
    assert forall t :: 0 <= t < |pre| ==> pre[t] == records[t];
    FirstSeenNamesExact(pre);
    if q < n - 1 {
      if j < |d0| {
        FirstSeenOrder(pre, i, j, q);
        var p :| 0 <= p < q && NormalizedName(pre[p].category) == d0[i];
        assert NormalizedName(records[p].category) == d[i];
      } else {
        assert false;
      }
    } else {
      if d == d0 {
        assert d[j] in d0;
        var q' :| 0 <= q' < |pre| && NormalizedName(pre[q'].category) == d[j];
        FirstSeenOrder(pre, i, j, q');
        var p :| 0 <= p < q' && NormalizedName(pre[p].category) == d0[i];
        assert NormalizedName(records[p].category) == d[i];
      } else {
        assert d == d0 + [name] && i < |d0| && d[i] == d0[i];
        assert d0[i] in d0;
        var p :| 0 <= p < |pre| && NormalizedName(pre[p].category) == d0[i];
        assert NormalizedName(records[p].category) == d[i];
      }
    }
  }

  /** newId hands out a different id every time, never the reserved one. */
  ghost predicate FreshIds(newId: int -> string)
  {
    && (forall a, b :: newId(a) == newId(b) ==> a == b)
    && (forall a :: newId(a) != UncategorizedId)
  }

  /** The ids of the first n categories the conversion makes. */
  ghost function IdsUpTo(newId: int -> string, n: int): (r: set<string>)
    ensures forall m :: 1 <= m <= n ==> newId(m) in r
    ensures forall k :: k in r ==> exists m :: 1 <= m <= n && k == newId(m)
    decreases n
  {
    if n <= 0 then {} else IdsUpTo(newId, n - 1) + {newId(n)}
  }

  /**
   * The loop state in closed form for the first-seen names d: Uncategorized
   * with order 0, the n-th name as category newId(n) with order n, and the
   * name map sending each of those names to its category.
   */
  ghost predicate CategoriesMatch(st: Conversion, d: seq<string>, newId: int -> string)
  {
    && st.nextOrder == |d| + 1
    && st.categories.Keys == {UncategorizedId} + IdsUpTo(newId, |d|)
    && st.categories[UncategorizedId] == DefaultUncategorized()
    && (forall n :: 1 <= n <= |d| ==> st.categories[newId(n)] == Category(newId(n), d[n - 1], n, ""))
    && st.names.Keys == (set x | x in d)
    && (forall x :: x in st.names ==> st.names[x] in st.categories && st.categories[st.names[x]].name == x)
  }

  lemma IdsUpToFresh(newId: int -> string, n: int)
    requires FreshIds(newId)
    ensures newId(n + 1) !in IdsUpTo(newId, n)
    ensures UncategorizedId !in IdsUpTo(newId, n)
  {
  }

  /** A step that makes a new category keeps the closed form, one name longer. */
  lemma StepNewKeepsMatch(st: Conversion, d: seq<string>, r: LegacyBookmark, newId: int -> string)
    requires FreshIds(newId)
    requires CategoriesMatch(st, d, newId)
    requires NormalizedName(r.category) != UncategorizedName && NormalizedName(r.category) !in st.names
    ensures CategoriesMatch(Step(st, r, newId), d + [NormalizedName(r.category)], newId)
  {
    var name := NormalizedName(r.category);
    var d' := d + [name];
    var st' := Step(st, r, newId);
    var cid := newId(|d| + 1);
    IdsUpToFresh(newId, |d|);
    assert st'.categories == st.categories[cid := Category(cid, name, |d| + 1, "")];
    assert IdsUpTo(newId, |d'|) == IdsUpTo(newId, |d|) + {cid};
    assert (set x | x in d') == (set x | x in d) + {name};
    forall n | 1 <= n <= |d'|
      ensures st'.categories[newId(n)] == Category(newId(n), d'[n - 1], n, "")
    {
      if n <= |d| {
        assert newId(n) != cid;
      }
    }
  }

  lemma StepKeepsMatch(st: Conversion, d: seq<string>, r: LegacyBookmark, newId: int -> string)
    requires FreshIds(newId)
    requires CategoriesMatch(st, d, newId)
    ensures CategoriesMatch(Step(st, r, newId), AddName(d, NormalizedName(r.category)), newId)
  {
    var name := NormalizedName(r.category);
    if name != UncategorizedName && name !in st.names {
      assert name !in (set x | x in d);
      StepNewKeepsMatch(st, d, r, newId);
    } else if name != UncategorizedName {
      assert name in (set x | x in d);
    }
  }

  /** The category table the conversion builds, in closed form. */
  lemma {:induction false} MigrateCategories(records: seq<LegacyBookmark>, newId: int -> string)
    requires FreshIds(newId)
    ensures CategoriesMatch(Migrate(records, newId), FirstSeenNames(records), newId)
    decreases |records|
  {
    if |records| > 0 {
      var pre := records[..|records| - 1];
      MigrateCategories(pre, newId);
      StepKeepsMatch(Migrate(pre, newId), FirstSeenNames(pre), records[|records| - 1], newId);
    }
  }

  /** The position in the name list of a category other than Uncategorized. */
  lemma PositionOf(st: Conversion, d: seq<string>, newId: int -> string, k: string) returns (n: int)
    requires CategoriesMatch(st, d, newId)
    requires k in st.categories && k != UncategorizedId
    ensures 1 <= n <= |d| && k == newId(n)
    ensures st.categories[k] == Category(k, d[n - 1], n, "")
  {
    n :| 1 <= n <= |d| && k == newId(n);
  }

  /**
   * The converted tables are well formed: entries stored under their ids,
   * names unique, Uncategorized present under its own name with order 0,
   * and the other categories numbered 1, 2, ... without repetition.
   */
  lemma MigrateWellFormed(records: seq<LegacyBookmark>, newId: int -> string)
    requires FreshIds(newId)
    ensures var cats := Migrate(records, newId).categories;
      && KeyedById(cats)
      && UniqueNames(cats)
      && UncategorizedId in cats && cats[UncategorizedId] == DefaultUncategorized()
      && (forall k :: k in cats && k != UncategorizedId ==> 1 <= cats[k].order <= |FirstSeenNames(records)|)
      && (forall k1, k2 :: k1 in cats && k2 in cats && cats[k1].order == cats[k2].order ==> k1 == k2)
  {
    var st := Migrate(records, newId);
    var d := FirstSeenNames(records);
    MigrateCategories(records, newId);
    FirstSeenNamesExact(records);
    forall k | k in st.categories
      ensures st.categories[k].id == k
      ensures k != UncategorizedId ==> 1 <= st.categories[k].order <= |d|
    {
      if k != UncategorizedId {
        var n := PositionOf(st, d, newId, k);
      }
    }
    forall k1, k2 | k1 in st.categories && k2 in st.categories && k1 != k2
      ensures st.categories[k1].name != st.categories[k2].name
      ensures st.categories[k1].order != st.categories[k2].order
    {
      if k1 != UncategorizedId && k2 != UncategorizedId {
        var n1 := PositionOf(st, d, newId, k1);
        var n2 := PositionOf(st, d, newId, k2);
      } else if k1 != UncategorizedId {
        var n1 := PositionOf(st, d, newId, k1);
      } else {
        var n2 := PositionOf(st, d, newId, k2);
      }
    }
  }

  /**
   * What the converted bookmark table says: one bookmark per record id, the
   * last record with that id winning, its fields kept and filed under the
   * category that carries the record's (normalized) category name.
   */
  ghost predicate BookmarksMatch(st: Conversion, records: seq<LegacyBookmark>)
  {
    && st.bookmarks.Keys == (set q | 0 <= q < |records| :: records[q].id)
    && (forall q :: LastWithKey(records, IdOfRecord, q) ==>
          && st.bookmarks[records[q].id] == Convert(records[q], st.bookmarks[records[q].id].categoryId)
          && st.bookmarks[records[q].id].categoryId in st.categories
          && st.categories[st.bookmarks[records[q].id].categoryId].name == NormalizedName(records[q].category))
  }

  /** A step only adds categories and files the record's bookmark correctly. */
  lemma StepFilesBookmark(st: Conversion, d: seq<string>, r: LegacyBookmark, newId: int -> string)
    requires FreshIds(newId)
    requires CategoriesMatch(st, d, newId)
    ensures var st' := Step(st, r, newId);
      && (forall k :: k in st.categories ==> k in st'.categories && st'.categories[k] == st.categories[k])
      && st'.bookmarks == st.bookmarks[r.id := Convert(r, st'.bookmarks[r.id].categoryId)]
      && st'.bookmarks[r.id].categoryId in st'.categories
      && st'.categories[st'.bookmarks[r.id].categoryId].name == NormalizedName(r.category)
  {
    IdsUpToFresh(newId, |d|);
  }

  lemma StepBookmarkKeys(st: Conversion, r: LegacyBookmark, newId: int -> string)
    ensures Step(st, r, newId).bookmarks.Keys == st.bookmarks.Keys + {r.id}
  {
  }

  /** The bookmark table holds one entry per record id. */
  lemma {:induction false} MigrateBookmarkKeys(records: seq<LegacyBookmark>, newId: int -> string)
    ensures Migrate(records, newId).bookmarks.Keys == (set q | 0 <= q < |records| :: records[q].id)
    decreases |records|
  {
    if |records| > 0 {
      var pre := records[..|records| - 1];
      MigrateBookmarkKeys(pre, newId);
      StepBookmarkKeys(Migrate(pre, newId), records[|records| - 1], newId);
      RecordIdsSnoc(records);
    }
  }

  lemma RecordIdsSnoc(records: seq<LegacyBookmark>)
    requires |records| > 0
    ensures var pre := records[..|records| - 1];
      (set q | 0 <= q < |records| :: records[q].id)
      == (set q | 0 <= q < |pre| :: pre[q].id) + {records[|records| - 1].id}
  {
    var pre := records[..|records| - 1];
    assert forall q :: 0 <= q < |pre| ==> pre[q] == records[q];
  }

  /** The entry of the last record with a given id. */
  lemma {:induction false} MigrateBookmarkAt(records: seq<LegacyBookmark>, newId: int -> string, q: int)
    requires FreshIds(newId)
    requires LastWithKey(records, IdOfRecord, q)
    ensures var st := Migrate(records, newId);
      && records[q].id in st.bookmarks
      && st.bookmarks[records[q].id] == Convert(records[q], st.bookmarks[records[q].id].categoryId)
      && st.bookmarks[records[q].id].categoryId in st.categories
      && st.categories[st.bookmarks[records[q].id].categoryId].name == NormalizedName(records[q].category)
    decreases |records|
  {
    var pre := records[..|records| - 1];
    var r := records[|records| - 1];
    MigrateCategories(pre, newId);
    StepFilesBookmark(Migrate(pre, newId), FirstSeenNames(pre), r, newId);
    if q < |records| - 1 {
      assert pre[q] == records[q];
      assert LastWithKey(pre, IdOfRecord, q);
      assert records[q].id != r.id;
      MigrateBookmarkAt(pre, newId, q);
    }
  }

  lemma MigrateBookmarks(records: seq<LegacyBookmark>, newId: int -> string)
    requires FreshIds(newId)
    ensures BookmarksMatch(Migrate(records, newId), records)
  {
    MigrateBookmarkKeys(records, newId);
    forall q | LastWithKey(records, IdOfRecord, q)
      ensures var st := Migrate(records, newId);
        && st.bookmarks[records[q].id] == Convert(records[q], st.bookmarks[records[q].id].categoryId)
        && st.bookmarks[records[q].id].categoryId in st.categories
        && st.categories[st.bookmarks[records[q].id].categoryId].name == NormalizedName(records[q].category)
    {
      MigrateBookmarkAt(records, newId, q);
    }
  }
}
