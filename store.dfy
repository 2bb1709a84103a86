/**
 * The store itself: the two tables the server keeps in memory, one method
 * per operation behind the HTTP handlers, and loading the stored file.
 */
module BookmarkStore {
  import opened Model
  import opened Ordering
  import opened Snapshot
  import opened Migration

  // ---------------------------------------------------------------------
  // Specification functions used by the store's contracts

  /**
   * What the running maximum of the category-creating paths ends with: the
   * largest category order, but never below 0.
   */
  ghost predicate IsMaxCategoryOrder(cats: map<string, Category>, m: int)
  {
    && m >= 0
    && (forall k :: k in cats ==> cats[k].order <= m)
    && (m == 0 || exists k :: k in cats && cats[k].order == m)
  }

  ghost function MaxCategoryOrderOf(cats: map<string, Category>): (m: int)
    ensures IsMaxCategoryOrder(cats, m)
  {
    MaxCategoryOrderExists(cats);
    var m :| IsMaxCategoryOrder(cats, m); m
  }

  lemma {:induction false} MaxCategoryOrderExists(cats: map<string, Category>)
    ensures exists m :: IsMaxCategoryOrder(cats, m)
    decreases |cats|
  {
    if |cats| == 0 {
      assert IsMaxCategoryOrder(cats, 0);
    } else {
      var k :| k in cats;
      var rest := cats - {k};
      assert |rest| < |cats| by { assert rest.Keys == cats.Keys - {k}; }
      MaxCategoryOrderExists(rest);
      var m :| IsMaxCategoryOrder(rest, m);
      assert forall c :: c in rest ==> rest[c] == cats[c];
      if cats[k].order > m {
        assert IsMaxCategoryOrder(cats, cats[k].order);
      } else {
        assert IsMaxCategoryOrder(cats, m);
      }
    }
  }

  lemma MaxCategoryOrderUnique(cats: map<string, Category>, m1: int, m2: int)
    requires IsMaxCategoryOrder(cats, m1) && IsMaxCategoryOrder(cats, m2)
    ensures m1 == m2
  {
  }

  /** Adding a category under a name nobody has keeps names unique. */
  lemma AddCategoryKeepsNames(cats: map<string, Category>, c: Category)
    requires UniqueNames(cats)
    requires UncategorizedId in cats && cats[UncategorizedId].name == UncategorizedName
    requires c.id !in cats && !HasName(cats, c.name)
    ensures UniqueNames(cats[c.id := c])
    ensures cats[c.id := c][UncategorizedId].name == UncategorizedName
  {
    var r := cats[c.id := c];
    forall k1, k2 | k1 in r && k2 in r && r[k1].name == r[k2].name
      ensures k1 == k2
    {
    }
  }

  /** Renaming one category to a name nobody has keeps names unique. */
  lemma RenameKeepsNames(cats: map<string, Category>, k: string, c: Category)
    requires UniqueNames(cats)
    requires k in cats
    requires c.name == cats[k].name || !HasName(cats, c.name)
    ensures UniqueNames(cats[k := c])
  {
    var r := cats[k := c];
    forall k1, k2 | k1 in r && k2 in r && r[k1].name == r[k2].name
      ensures k1 == k2
    {
    }
  }

  /**
   * Contiguity depends only on where each bookmark is filed: two tables that
   * agree on every bookmark's category and order agree on it.
   */
  lemma SamePlacesSameContiguity(a: map<string, Bookmark>, b: map<string, Bookmark>)
    requires a.Keys == b.Keys
    requires forall k :: k in a ==> a[k].categoryId == b[k].categoryId && a[k].order == b[k].order
    requires AllContiguous(a)
    ensures AllContiguous(b)
  {
    forall c
      ensures Contiguous(b, c)
    {
      MembersUnchanged(a, b, c);
      assert Contiguous(a, c);
    }
  }

  /**
   * The category table after the batch reorder: the category of the i-th
   * listed id gets order i; ids that name no category are skipped.
   */
  function Reordered(cats: map<string, Category>, ids: seq<string>): map<string, Category>
    decreases |ids|
  {
    if |ids| == 0 then cats
    else
      var r := Reordered(cats, ids[..|ids| - 1]);
      var id := ids[|ids| - 1];
      if id in r then r[id := r[id].(order := |ids| - 1)] else r
  }

  /** The reorder only touches orders, and no category is added or lost. */
  lemma {:induction false} ReorderedKeepsRest(cats: map<string, Category>, ids: seq<string>)
    ensures Reordered(cats, ids).Keys == cats.Keys
    ensures forall k :: k in cats ==> Reordered(cats, ids)[k].(order := cats[k].order) == cats[k]
    decreases |ids|
  {
    if |ids| > 0 {
      ReorderedKeepsRest(cats, ids[..|ids| - 1]);
    }
  }

  /** A category whose id is listed takes the index of its last listing. */
  lemma {:induction false} ReorderedLastIndex(cats: map<string, Category>, ids: seq<string>, i: int)
    requires 0 <= i < |ids| && ids[i] in cats
    requires forall j :: i < j < |ids| ==> ids[j] != ids[i]
    ensures ids[i] in Reordered(cats, ids) && Reordered(cats, ids)[ids[i]].order == i
    decreases |ids|
  {
    ReorderedKeepsRest(cats, ids);
    ReorderedKeepsRest(cats, ids[..|ids| - 1]);
    if i < |ids| - 1 {
      ReorderedLastIndex(cats, ids[..|ids| - 1], i);
    }
  }

  /** A category whose id is not listed keeps its order. */
  lemma {:induction false} ReorderedUnlisted(cats: map<string, Category>, ids: seq<string>, k: string)
    requires k in cats
    requires forall j :: 0 <= j < |ids| ==> ids[j] != k
    ensures k in Reordered(cats, ids) && Reordered(cats, ids)[k] == cats[k]
    decreases |ids|
  {
    ReorderedKeepsRest(cats, ids);
    if |ids| > 0 {
      ReorderedKeepsRest(cats, ids[..|ids| - 1]);
      ReorderedUnlisted(cats, ids[..|ids| - 1], k);
    }
  }

  /**
   * Sending every category id once, in the wanted order, numbers the
   * categories 0, 1, ..., n-1 in that order.
   */
  lemma ReorderedPermutation(cats: map<string, Category>, ids: seq<string>)
    requires forall i, j :: 0 <= i < j < |ids| ==> ids[i] != ids[j]
    requires forall i :: 0 <= i < |ids| ==> ids[i] in cats
    ensures forall i :: 0 <= i < |ids| ==> ids[i] in Reordered(cats, ids) && Reordered(cats, ids)[ids[i]].order == i
  {
    forall i | 0 <= i < |ids|
      ensures ids[i] in Reordered(cats, ids) && Reordered(cats, ids)[ids[i]].order == i
    {
      ReorderedLastIndex(cats, ids, i);
    }
  }

  /** What the stored file turned out to hold when it was read. */
  datatype StoredFile =
    | Unusable
    | CurrentShape(categories: seq<Category>, bookmarks: seq<Bookmark>)
    | LegacyShape(records: seq<LegacyBookmark>)

  // ---------------------------------------------------------------------
  // Stateless helpers with loops

  /** sliceToCategoryMap: index the stored category list by id. */
  method SliceToCategoryMap(s: seq<Category>) returns (r: map<string, Category>)
    ensures r == KeyedMap(s, IdOfCategory)
  {
    r := map[];
    var i := 0;
    while i < |s|
      invariant 0 <= i <= |s|
      invariant r == KeyedMap(s[..i], IdOfCategory)
    {
      assert s[..i + 1][..i] == s[..i];
      r := r[s[i].id := s[i]];
      i := i + 1;
    }
    assert s[..|s|] == s;
  }

  /** sliceToBookmarkMap: index the stored bookmark list by id. */
  method SliceToBookmarkMap(s: seq<Bookmark>) returns (r: map<string, Bookmark>)
    ensures r == KeyedMap(s, IdOfBookmark)
  {
    r := map[];
    var i := 0;
    while i < |s|
      invariant 0 <= i <= |s|
      invariant r == KeyedMap(s[..i], IdOfBookmark)
    {
      assert s[..i + 1][..i] == s[..i];
      r := r[s[i].id := s[i]];
      i := i + 1;
    }
    assert s[..|s|] == s;
  }

  /** The values of a table in whatever order the map hands them out. */
  method CollectValues<T(==)>(m: map<string, T>) returns (s: seq<T>)
    requires forall a, b :: a in m && b in m && m[a] == m[b] ==> a == b
    ensures multiset(s) == multiset(m.Values)
  {
    s := [];
    var todo := m.Keys;
    ghost var done: set<T> := {};
    while todo != {}
      invariant todo <= m.Keys
      invariant done == (set k | k in m && k !in todo :: m[k])
      invariant multiset(s) == multiset(done)
      decreases |todo|
    {
      var k :| k in todo;
      assert m[k] !in done;
      s := s + [m[k]];
      done := done + {m[k]};
      todo := todo - {k};
    }
    assert done == m.Values;
  }

  /** shiftOrdersInCategory: make room for a move inside one category of the table. */
  method ShiftOrdersInCategory(bookmarks: map<string, Bookmark>, cat: string, oldOrder: int, newOrder: int, exclude: string) returns (r: map<string, Bookmark>)
    ensures r == ShiftedInCategory(bookmarks, cat, oldOrder, newOrder, exclude)
  {
    if oldOrder == newOrder {
      ShiftInCategoryNoop(bookmarks, cat, oldOrder, exclude);
      return bookmarks;
    }
    ghost var before := bookmarks;
    var bms := bookmarks;
    var todo := bms.Keys;
    while todo != {}
      invariant todo <= before.Keys && bms.Keys == before.Keys
      invariant forall id :: id in todo ==> bms[id] == before[id]
      invariant forall id :: id in before && id !in todo ==>
        bms[id] == (if id == exclude then before[id] else ShiftWithin(before[id], cat, oldOrder, newOrder))
      decreases |todo|
    {
      var id :| id in todo;
      var bm := bms[id];
      if bm.categoryId != cat || id == exclude {
      } else if oldOrder < newOrder {
        if bm.order > oldOrder && bm.order <= newOrder {
          bm := bm.(order := bm.order - 1);
          bms := bms[id := bm];
        }
      } else {
        if bm.order >= newOrder && bm.order < oldOrder {
          bm := bm.(order := bm.order + 1);
          bms := bms[id := bm];
        }
      }
      assert bms[id] == (if id == exclude then before[id] else ShiftWithin(before[id], cat, oldOrder, newOrder));
      todo := todo - {id};
    }
    r := bms;
  }

  /** shiftOrdersAfter: add delta to every order above the threshold. */
  method ShiftOrdersAfter(bookmarks: map<string, Bookmark>, cat: string, threshold: int, delta: int, exclude: string) returns (r: map<string, Bookmark>)
    ensures r == ShiftedAfter(bookmarks, cat, threshold, delta, exclude)
  {
    ghost var before := bookmarks;
    var bms := bookmarks;
    var todo := bms.Keys;
    while todo != {}
      invariant todo <= before.Keys && bms.Keys == before.Keys
      invariant forall id :: id in todo ==> bms[id] == before[id]
      invariant forall id :: id in before && id !in todo ==>
        bms[id] == (if id == exclude then before[id] else ShiftAfter(before[id], cat, threshold, delta))
      decreases |todo|
    {
      var id :| id in todo;
      var bm := bms[id];
      if bm.categoryId != cat || id == exclude {
      } else if bm.order > threshold {
        bm := bm.(order := bm.order + delta);
        bms := bms[id := bm];
      }
      assert bms[id] == (if id == exclude then before[id] else ShiftAfter(before[id], cat, threshold, delta));
      todo := todo - {id};
    }
    r := bms;
  }

  /** shiftOrdersFrom: add delta to every order at or above the threshold. */
  method ShiftOrdersFrom(bookmarks: map<string, Bookmark>, cat: string, threshold: int, delta: int, exclude: string) returns (r: map<string, Bookmark>)
    ensures r == ShiftedFrom(bookmarks, cat, threshold, delta, exclude)
  {
    ghost var before := bookmarks;
    var bms := bookmarks;
    var todo := bms.Keys;
    while todo != {}
      invariant todo <= before.Keys && bms.Keys == before.Keys
      invariant forall id :: id in todo ==> bms[id] == before[id]
      invariant forall id :: id in before && id !in todo ==>
        bms[id] == (if id == exclude then before[id] else ShiftFrom(before[id], cat, threshold, delta))
      decreases |todo|
    {
      var id :| id in todo;
      var bm := bms[id];
      if bm.categoryId != cat || id == exclude {
      } else if bm.order >= threshold {
        bm := bm.(order := bm.order + delta);
        bms := bms[id := bm];
      }
      assert bms[id] == (if id == exclude then before[id] else ShiftFrom(before[id], cat, threshold, delta));
      todo := todo - {id};
    }
    r := bms;
  }

  /**
   * loadDatabase's conversion of a legacy list: one pass over the records,
   * making a category the first time a name is met.
   */
  method MigrateRecords(records: seq<LegacyBookmark>, newId: int -> string)
    returns (cats: map<string, Category>, bms: map<string, Bookmark>)
    requires FreshIds(newId)
    ensures cats == Migrate(records, newId).categories && bms == Migrate(records, newId).bookmarks
    ensures KeyedById(cats) && UniqueNames(cats) && BookmarksKeyedById(bms)
    ensures UncategorizedId in cats && cats[UncategorizedId] == DefaultUncategorized()
  {
    cats := map[UncategorizedId := DefaultUncategorized()];
    bms := map[];
    var names: map<string, string> := map[];
    var categoryOrder := 1;
    var i := 0;
    while i < |records|
      invariant 0 <= i <= |records|
      invariant Conversion(cats, bms, names, categoryOrder) == Migrate(records[..i], newId)
    {
      assert records[..i + 1][..i] == records[..i];
      assert Migrate(records[..i + 1], newId) == Step(Migrate(records[..i], newId), records[i], newId);
      var rec := records[i];
      var catName := rec.category;
      if catName == "" {
        catName := UncategorizedName;
      }
      var cid: string;
      if catName == UncategorizedName {
        cid := UncategorizedId;
      } else if catName in names {
        cid := names[catName];
      } else {
        cid := newId(categoryOrder);
        cats := cats[cid := Category(cid, catName, categoryOrder, "")];
        names := names[catName := cid];
        categoryOrder := categoryOrder + 1;
      }
      bms := bms[rec.id := Convert(rec, cid)];
      i := i + 1;
    }
    assert records[..|records|] == records;
    MigrateWellFormed(records, newId);
    MigrateBookmarks(records, newId);
    forall k | k in bms
      ensures bms[k].id == k
    {
      var q :| 0 <= q < |records| && records[q].id == k;
      var last := LastOf(records, q);
    }
  }

  /**
   * updateBookmark's field patch: a given title replaces the old one, given
   * notes replace the old ones cut to NotesLimit bytes, and nothing else of
   * the bookmark changes.
   */
  function Patched(b: Bookmark, title: Option<string>, notes: Option<string>): (r: Bookmark)
    ensures r.(title := b.title, notes := b.notes) == b
    ensures title.Some? ==> r.title == title.value
    ensures title.None? ==> r.title == b.title
    ensures notes.Some? ==> r.notes <= notes.value && |r.notes| <= NotesLimit
    ensures notes.Some? && |notes.value| <= NotesLimit ==> r.notes == notes.value
    ensures notes.Some? && |notes.value| > NotesLimit ==> r.notes == notes.value[..NotesLimit]
    ensures notes.None? ==> r.notes == b.notes
  {
    var withTitle := if title.Some? then b.(title := title.value) else b;
    if notes.Some? then withTitle.(notes := TruncateNotes(notes.value)) else withTitle
  }

  /**
   * deleteCategory's loop: every bookmark of `target` is refiled under
   * Uncategorized with the order one past Uncategorized's current largest.
   */
  method RefileMembers(before: map<string, Bookmark>, target: string) returns (after: map<string, Bookmark>)
    requires target != UncategorizedId
    ensures ReassignedToUncategorized(before, after, target, MaxOrder(before, UncategorizedId))
  {
    ghost var m := MaxOrder(before, UncategorizedId);
    ghost var moved: set<string> := {};
    ghost var k: nat := 0;
    after := before;
    var todo := after.Keys;
    ReassignStart(before, target, m);
    while todo != {}
      invariant ReassignFrame(before, after, target, moved, todo)
      invariant ReassignOrders(after, m, moved, k)
      invariant k == |moved|
      decreases |todo|
    {
      var id :| id in todo;
      if after[id].categoryId == target {
        var mx := MaxOrderIn(after, UncategorizedId);
        ReassignFrameMove(before, after, target, moved, todo, id, mx + 1);
        ReassignOrdersMove(after, m, moved, k, id, mx);
        after := after[id := after[id].(categoryId := UncategorizedId, order := mx + 1)];
        moved := moved + {id};
        k := k + 1;
      } else {
        ReassignSkip(before, after, target, moved, todo, id);
      }
      todo := todo - {id};
    }
    ReassignDone(before, after, target, m, moved);
  }

  /** The scan behind maxOrderInCategory, over a given table. */
  method MaxOrderIn(bookmarks: map<string, Bookmark>, cat: string) returns (m: int)
    ensures IsMaxOrder(bookmarks, cat, m)
  {
    m := -1;
    var todo := bookmarks.Keys;
    while todo != {}
      invariant todo <= bookmarks.Keys
      invariant m >= -1
      invariant forall id :: id in bookmarks && id !in todo && bookmarks[id].categoryId == cat ==> bookmarks[id].order <= m
      invariant m == -1 || exists id :: id in bookmarks && bookmarks[id].categoryId == cat && bookmarks[id].order == m
      decreases |todo|
    {
      var id :| id in todo;
      if bookmarks[id].categoryId == cat && bookmarks[id].order > m {
        m := bookmarks[id].order;
      }
      todo := todo - {id};
    }
  }

  // ---------------------------------------------------------------------
  // The store

  class Store {
    var categories: map<string, Category>
    var bookmarks: map<string, Bookmark>

    /**
     * What every load path establishes and every operation keeps: the
     * reserved category exists and both tables store entries under their id.
     */
    ghost predicate Valid()
      reads this
    {
      && UncategorizedId in categories
      && KeyedById(categories)
      && BookmarksKeyedById(bookmarks)
    }

    /**
     * Names are unique and the reserved category is called "Uncategorized".
     * A current-shape file may break this; every operation keeps it.
     */
    ghost predicate WellNamed()
      reads this
    {
      && UncategorizedId in categories
      && categories[UncategorizedId].name == UncategorizedName
      && UniqueNames(categories)
    }

    /** Start-up: load the stored file, or fall back to the defaults. */
    constructor Open(file: StoredFile, newId: int -> string)
      requires FreshIds(newId)
      ensures Valid()
      ensures file.Unusable? ==> categories == map[UncategorizedId := DefaultUncategorized()] && bookmarks == map[]
    {
      new;
      Load(file, newId);
    }

    /** initializeDefaults: only the reserved category, no bookmarks. */
    method InitializeDefaults()
      modifies this
      ensures categories == map[UncategorizedId := DefaultUncategorized()] && bookmarks == map[]
      ensures Valid() && WellNamed()
    {
      categories := map[UncategorizedId := DefaultUncategorized()];
      bookmarks := map[];
    }

    // -------------------------------------------------------------------
    // Lookups

    /** getCategoryByName: one category carrying the name, if any does. */
    method CategoryByName(name: string) returns (r: Option<Category>)
      requires Valid()
      ensures r.Some? ==> r.value.id in categories && categories[r.value.id] == r.value && r.value.name == name
      ensures r.None? <==> !HasName(categories, name)
    {
      r := None;
      var todo := categories.Keys;
      while todo != {} && r.None?
        invariant todo <= categories.Keys
        invariant r.None? ==> forall k :: k in categories && k !in todo ==> categories[k].name != name
        invariant r.Some? ==> r.value.id in categories && categories[r.value.id] == r.value && r.value.name == name
        decreases |todo|
      {
        var k :| k in todo;
        if categories[k].name == name {
          r := Some(categories[k]);
        }
        todo := todo - {k};
      }
    }

    /** maxOrderInCategory: the largest order in the category, -1 when it is empty. */
    method MaxOrderInCategory(cat: string) returns (m: int)
      ensures IsMaxOrder(bookmarks, cat, m)
    {
      m := MaxOrderIn(bookmarks, cat);
    }

    /** The running maximum over category orders that starts at 0. */
    method MaxCategoryOrder() returns (m: int)
      ensures IsMaxCategoryOrder(categories, m)
    {
      m := 0;
      var todo := categories.Keys;
      while todo != {}
        invariant todo <= categories.Keys
        invariant m >= 0
        invariant forall k :: k in categories && k !in todo ==> categories[k].order <= m
        invariant m == 0 || exists k :: k in categories && categories[k].order == m
        decreases |todo|
      {
        var k :| k in todo;
        if categories[k].order > m {
          m := categories[k].order;
        }
        todo := todo - {k};
      }
    }

    // -------------------------------------------------------------------
    // Bookmarks

    /**
     * The step createBookmark, updateBookmark and createCategory share: a
     * new category under `name`, ordered after every existing one.
     */
    method AddCategory(name: string, color: string, freshId: string)
      requires Valid()
      requires freshId !in categories
      modifies this
      ensures Valid()
      ensures categories == old(categories)[freshId := Category(freshId, name, MaxCategoryOrderOf(old(categories)) + 1, color)]
      ensures forall k :: k in old(categories) ==> old(categories)[k].order < categories[freshId].order
      ensures bookmarks == old(bookmarks)
      ensures old(WellNamed()) && !HasName(old(categories), name) ==> WellNamed()
    {
      var m := MaxCategoryOrder();
      MaxCategoryOrderUnique(categories, m, MaxCategoryOrderOf(categories));
      var c := Category(freshId, name, m + 1, color);
      if WellNamed() && !HasName(categories, name) {
        AddCategoryKeepsNames(categories, c);
      }
      categories := categories[freshId := c];
    }

    /**
     * createBookmark's choice of category: an explicit id as given, an empty
     * or "Uncategorized" name the reserved category, another name the
     * category carrying it, made when there is none.
     */
    method ResolveCategoryForCreate(category: string, categoryId: string, freshId: string) returns (cid: string)
      requires Valid()
      requires freshId !in categories
      modifies this
      ensures Valid()
      ensures bookmarks == old(bookmarks)
      ensures categoryId != "" ==> cid == categoryId && categories == old(categories)
      ensures categoryId == "" && MeansUncategorized(category) ==>
        cid == UncategorizedId && categories == old(categories)
      ensures categoryId == "" && !MeansUncategorized(category) && HasName(old(categories), category) ==>
        categories == old(categories) && cid in categories && categories[cid].name == category
      ensures categoryId == "" && !MeansUncategorized(category) && !HasName(old(categories), category) ==>
        && cid == freshId
        && categories == old(categories)[freshId := Category(freshId, category, MaxCategoryOrderOf(old(categories)) + 1, "")]
      ensures old(WellNamed()) ==> WellNamed()
    {
      cid := categoryId;
      if cid == "" {
        if category != "" && category != UncategorizedName {
          var existing := CategoryByName(category);
          if existing.Some? {
            cid := existing.value.id;
          } else {
            AddCategory(category, "", freshId);
            cid := freshId;
          }
        } else {
          cid := UncategorizedId;
        }
      }
    }

    /**
     * createBookmark. The id is derived from the URL (`idOf`), so posting a
     * stored URL again overwrites that entry; the order is one past the
     * largest order of the target category; `now`, `host` and `freshId`
     * stand for the clock, the URL's host name and a new random id.
     */
    method CreateBookmark(url: string, title: string, category: string, categoryId: string, favicon: string,
                          host: string, now: int, idOf: string -> string, freshId: string)
      returns (bm: Bookmark)
      requires Valid()
      requires freshId !in categories
      modifies this
      ensures Valid()
      ensures bookmarks == old(bookmarks)[bm.id := bm]
      ensures bm == Bookmark(idOf(url), url, title, "", bm.categoryId, now, bm.favicon, bm.order, None, "")
      ensures IsMaxOrder(old(bookmarks), bm.categoryId, bm.order - 1)
      ensures bm.favicon == if favicon == "" then FaviconFor(host) else favicon
      ensures categoryId != "" ==> bm.categoryId == categoryId && categories == old(categories)
      ensures categoryId == "" && MeansUncategorized(category) ==>
        bm.categoryId == UncategorizedId && categories == old(categories)
      ensures categoryId == "" && !MeansUncategorized(category) && HasName(old(categories), category) ==>
        && categories == old(categories)
        && bm.categoryId in categories && categories[bm.categoryId].name == category
      ensures categoryId == "" && !MeansUncategorized(category) && !HasName(old(categories), category) ==>
        && bm.categoryId == freshId
        && categories == old(categories)[freshId := Category(freshId, category, MaxCategoryOrderOf(old(categories)) + 1, "")]
      ensures old(WellNamed()) ==> WellNamed()
      ensures bm.id !in old(bookmarks) && old(AllContiguous(bookmarks)) ==> AllContiguous(bookmarks)
    {
      var faviconUrl := favicon;
      if faviconUrl == "" {
        faviconUrl := FaviconFor(host);
      }
      var cid := ResolveCategoryForCreate(category, categoryId, freshId);
      var m := MaxOrderInCategory(cid);
      bm := Bookmark(idOf(url), url, title, "", cid, now, faviconUrl, m + 1, None, "");
      if bm.id !in bookmarks && AllContiguous(bookmarks) {
        AppendKeepsAllContiguous(bookmarks, bm.id, bm);
      }
      bookmarks := bookmarks[bm.id := bm];
    }

    /**
     * updateBookmark's choice of category: an explicit id wins; otherwise a
     * name resolves to the category carrying it, or to a new one unless the
     * name is empty; with neither the bookmark stays where it is.
     */
    method ResolveCategoryForUpdate(current: string, category: Option<string>, categoryId: Option<string>,
                                    freshId: string)
      returns (cid: string)
      requires Valid()
      requires freshId !in categories
      modifies this
      ensures Valid()
      ensures bookmarks == old(bookmarks)
      ensures categoryId.Some? ==> cid == categoryId.value && categories == old(categories)
      ensures categoryId.None? && category.Some? && HasName(old(categories), category.value) ==>
        categories == old(categories) && cid in categories && categories[cid].name == category.value
      ensures categoryId.None? && category.Some? && !HasName(old(categories), category.value) && category.value != "" ==>
        && cid == freshId
        && categories == old(categories)[freshId := Category(freshId, category.value,
                                                             MaxCategoryOrderOf(old(categories)) + 1, "")]
      ensures categoryId.None? && (category.None? || (category.value == "" && !HasName(old(categories), ""))) ==>
        cid == current && categories == old(categories)
      ensures old(WellNamed()) ==> WellNamed()
    {
      cid := current;
      if categoryId.Some? {
        cid := categoryId.value;
      } else if category.Some? {
        var existing := CategoryByName(category.value);
        if existing.Some? {
          cid := existing.value.id;
        } else if category.value != "" {
          AddCategory(category.value, "", freshId);
          cid := freshId;
        }
      }
    }

    /**
     * updateBookmark's move: repair the orders around `id`, then write the
     * patched bookmark back at (newCategoryId, newOrder).
     */
    method MoveBookmark(id: string, bm: Bookmark, newCategoryId: string, newOrder: int)
      requires id in bookmarks
      modifies this
      ensures bookmarks == Relocate(old(bookmarks), id, newCategoryId, newOrder)
                             [id := bm.(categoryId := newCategoryId, order := newOrder)]
      ensures categories == old(categories)
      ensures old(AllContiguous(bookmarks)) && MoveInRange(old(bookmarks), id, newCategoryId, newOrder) ==>
        AllContiguous(bookmarks)
      ensures old(Valid()) && bm.id == id ==> Valid()
    {
      ghost var before := bookmarks;
      var current := bookmarks[id];
      if current.categoryId == newCategoryId {
        bookmarks := ShiftOrdersInCategory(bookmarks, current.categoryId, current.order, newOrder, id);
      } else {
        bookmarks := ShiftOrdersAfter(bookmarks, current.categoryId, current.order, -1, id);
        bookmarks := ShiftOrdersFrom(bookmarks, newCategoryId, newOrder, 1, id);
      }
      var placed := bm.(categoryId := newCategoryId, order := newOrder);
      RelocateOnlyRenumbers(before, id, newCategoryId, newOrder);
      if AllContiguous(before) && MoveInRange(before, id, newCategoryId, newOrder) {
        MoveKeepsAllContiguous(before, id, newCategoryId, newOrder);
        SamePlacesSameContiguity(Moved(before, id, newCategoryId, newOrder), bookmarks[id := placed]);
      }
      bookmarks := bookmarks[id := placed];
    }

    /**
     * updateBookmark: a partial patch. Title and notes (cut to NotesLimit
     * bytes) are replaced when given; any location field moves the bookmark
     * and repairs the orders around it.
     */
    method UpdateBookmark(id: string, title: Option<string>, category: Option<string>, categoryId: Option<string>,
                          order: Option<int>, notes: Option<string>, freshId: string)
      returns (outcome: Outcome)
      requires Valid()
      requires freshId !in categories
      modifies this
      ensures Valid()
      ensures outcome == NotFound <==> id !in old(bookmarks)
      ensures outcome == Ok || outcome == NotFound
      ensures outcome == NotFound ==> categories == old(categories) && bookmarks == old(bookmarks)
      ensures outcome == Ok ==> id in bookmarks && id in old(bookmarks)
      ensures outcome == Ok && (categoryId.Some? || category.Some? || order.Some?) ==>
        var newOrder := if order.Some? then order.value else old(bookmarks)[id].order;
        bookmarks == Relocate(old(bookmarks), id, bookmarks[id].categoryId, newOrder)
                       [id := Patched(old(bookmarks)[id], title, notes).(categoryId := bookmarks[id].categoryId,
                                                                         order := newOrder)]
      ensures outcome == Ok && categoryId.None? && category.None? && order.None? ==>
        bookmarks == old(bookmarks)[id := Patched(old(bookmarks)[id], title, notes)]
      ensures outcome == Ok && categoryId.Some? ==>
        bookmarks[id].categoryId == categoryId.value && categories == old(categories)
      ensures outcome == Ok && categoryId.None? && category.Some? && HasName(old(categories), category.value) ==>
        && categories == old(categories)
        && bookmarks[id].categoryId in categories
        && categories[bookmarks[id].categoryId].name == category.value
      ensures outcome == Ok && categoryId.None? && category.Some? && !HasName(old(categories), category.value)
              && category.value != "" ==>
        && bookmarks[id].categoryId == freshId
        && categories == old(categories)[freshId := Category(freshId, category.value,
                                                             MaxCategoryOrderOf(old(categories)) + 1, "")]
      ensures outcome == Ok && categoryId.None? && (category.None? || (category.value == "" && !HasName(old(categories), ""))) ==>
        bookmarks[id].categoryId == old(bookmarks)[id].categoryId && categories == old(categories)
      ensures old(WellNamed()) ==> WellNamed()
      ensures outcome == Ok && old(AllContiguous(bookmarks)) && categoryId.None? && category.None? && order.None? ==>
        AllContiguous(bookmarks)
      ensures outcome == Ok && old(AllContiguous(bookmarks))
              && MoveInRange(old(bookmarks), id, bookmarks[id].categoryId,
                             if order.Some? then order.value else old(bookmarks)[id].order) ==>
        AllContiguous(bookmarks)
    {
      if id !in bookmarks {
        return NotFound;
      }
      ghost var before := bookmarks;
      var bm := Patched(bookmarks[id], title, notes);
      var newCategoryId := ResolveCategoryForUpdate(bm.categoryId, category, categoryId, freshId);
      if categoryId.Some? || category.Some? || order.Some? {
        var newOrder := bm.order;
        if order.Some? {
          newOrder := order.value;
        }
        MoveBookmark(id, bm, newCategoryId, newOrder);
      } else {
        if AllContiguous(before) {
          SamePlacesSameContiguity(before, bookmarks[id := bm]);
        }
        bookmarks := bookmarks[id := bm];
      }
      outcome := Ok;
    }

    /** deleteBookmark: remove one entry; the orders of the others stay as they are. */
    method DeleteBookmark(id: string) returns (outcome: Outcome)
      modifies this
      ensures outcome == NotFound <==> id !in old(bookmarks)
      ensures outcome == Ok || outcome == NotFound
      ensures outcome == NotFound ==> bookmarks == old(bookmarks)
      ensures outcome == Ok ==> bookmarks == old(bookmarks) - {id}
      ensures categories == old(categories)
      ensures old(Valid()) ==> Valid()
    {
      if id !in bookmarks {
        return NotFound;
      }
      bookmarks := bookmarks - {id};
      outcome := Ok;
    }

    /** visitBookmark: record the time of the visit and change nothing else. */
    method VisitBookmark(id: string, now: int) returns (outcome: Outcome)
      modifies this
      ensures outcome == NotFound <==> id !in old(bookmarks)
      ensures outcome == Ok || outcome == NotFound
      ensures outcome == NotFound ==> bookmarks == old(bookmarks)
      ensures outcome == Ok ==> bookmarks == old(bookmarks)[id := old(bookmarks)[id].(lastVisited := Some(now))]
      ensures categories == old(categories)
      ensures old(Valid()) ==> Valid()
      ensures old(AllContiguous(bookmarks)) ==> AllContiguous(bookmarks)
    {
      if id !in bookmarks {
        return NotFound;
      }
      var bm := bookmarks[id];
      bm := bm.(lastVisited := Some(now));
      if AllContiguous(bookmarks) {
        SamePlacesSameContiguity(bookmarks, bookmarks[id := bm]);
      }
      bookmarks := bookmarks[id := bm];
      outcome := Ok;
    }

    // -------------------------------------------------------------------
    // Categories

    /** createCategory: a new category after all others, unless the name is empty or taken. */
    method CreateCategory(name: string, color: string, freshId: string) returns (outcome: Outcome)
      requires Valid()
      requires freshId !in categories
      modifies this
      ensures Valid()
      ensures outcome == InvalidInput <==> name == ""
      ensures outcome == Conflict <==> name != "" && HasName(old(categories), name)
      ensures outcome == Ok <==> name != "" && !HasName(old(categories), name)
      ensures outcome != Ok ==> categories == old(categories)
      ensures outcome == Ok ==>
        categories == old(categories)[freshId := Category(freshId, name, MaxCategoryOrderOf(old(categories)) + 1, color)]
      ensures outcome == Ok ==> forall k :: k in old(categories) ==> old(categories)[k].order < categories[freshId].order
      ensures bookmarks == old(bookmarks)
      ensures old(WellNamed()) ==> WellNamed()
    {
      if name == "" {
        return InvalidInput;
      }
      var existing := CategoryByName(name);
      if existing.Some? {
        return Conflict;
      }
      AddCategory(name, color, freshId);
      outcome := Ok;
    }

    /**
     * updateCategory: patch name, order and color of the category called
     * `oldName`, reported back as `target`. The reserved category cannot
     * be renamed, and a new name must be free; the order is taken as given.
     */
    method UpdateCategory(oldName: string, name: Option<string>, order: Option<int>, color: Option<string>)
      returns (outcome: Outcome, target: string)
      requires Valid()
      modifies this
      ensures Valid()
      ensures outcome == NotFound <==> !HasName(old(categories), oldName)
      ensures outcome != NotFound ==> target in old(categories) && old(categories)[target].name == oldName
      ensures outcome == Forbidden <==>
        outcome != NotFound && target == UncategorizedId && name.Some? && name.value != UncategorizedName
      ensures outcome == Conflict <==>
        && outcome != NotFound && outcome != Forbidden
        && name.Some? && name.value != oldName && HasName(old(categories), name.value)
      ensures outcome != InvalidInput
      ensures outcome != Ok ==> categories == old(categories)
      ensures outcome == Ok ==>
        var c := old(categories)[target];
        categories == old(categories)[target := c.(name := if name.Some? then name.value else c.name,
                                                   order := if order.Some? then order.value else c.order,
                                                   color := if color.Some? then color.value else c.color)]
      ensures bookmarks == old(bookmarks)
      ensures old(WellNamed()) ==> WellNamed()
    {
      var found := CategoryByName(oldName);
      if found.None? {
        return NotFound, "";
      }
      var cat := found.value;
      target := cat.id;
      if target == UncategorizedId && name.Some? && name.value != UncategorizedName {
        return Forbidden, target;
      }
      if name.Some? && name.value != cat.name {
        var existing := CategoryByName(name.value);
        if existing.Some? {
          return Conflict, target;
        }
        cat := cat.(name := name.value);
      }
      if order.Some? {
        cat := cat.(order := order.value);
      }
      if color.Some? {
        cat := cat.(color := color.value);
      }
      if WellNamed() {
        RenameKeepsNames(categories, target, cat);
      }
      categories := categories[target := cat];
      outcome := Ok;
    }

    /**
     * deleteCategory: refile the category's bookmarks under Uncategorized,
     * each one after the current last there, then drop the category. The
     * reserved category cannot be deleted.
     */
    method DeleteCategory(name: string) returns (outcome: Outcome, target: string)
      requires Valid()
      modifies this
      ensures Valid()
      ensures outcome == NotFound <==> !HasName(old(categories), name)
      ensures outcome != NotFound ==> target in old(categories) && old(categories)[target].name == name
      ensures outcome == Forbidden <==> outcome != NotFound && target == UncategorizedId
      ensures outcome == Ok || outcome == NotFound || outcome == Forbidden
      ensures outcome != Ok ==> categories == old(categories) && bookmarks == old(bookmarks)
      ensures outcome == Ok ==> categories == old(categories) - {target}
      ensures outcome == Ok ==>
        ReassignedToUncategorized(old(bookmarks), bookmarks, target, MaxOrder(old(bookmarks), UncategorizedId))
      ensures outcome == Ok ==> Members(bookmarks, target) == {}
      ensures outcome == Ok && old(AllContiguous(bookmarks)) ==> AllContiguous(bookmarks)
      ensures old(WellNamed()) ==> WellNamed()
    {
      var found := CategoryByName(name);
      if found.None? {
        return NotFound, "";
      }
      target := found.value.id;
      if target == UncategorizedId {
        return Forbidden, target;
      }
      ghost var before := bookmarks;
      ghost var m := MaxOrder(before, UncategorizedId);
      bookmarks := RefileMembers(bookmarks, target);
      ReassignedKeepsIds(before, bookmarks, target, m);
      ReassignedEmptiesCategory(before, bookmarks, target, m);
      if AllContiguous(before) {
        ReassignedKeepsAllContiguous(before, bookmarks, target, m);
      }
      categories := categories - {target};
      outcome := Ok;
    }

    /**
     * handleCategoriesReorder: the category of the i-th listed id gets
     * order i. An empty list is refused; unknown ids are skipped.
     */
    method ReorderCategories(ids: seq<string>) returns (outcome: Outcome)
      modifies this
      ensures outcome == InvalidInput <==> |ids| == 0
      ensures outcome == Ok || outcome == InvalidInput
      ensures outcome == InvalidInput ==> categories == old(categories)
      ensures outcome == Ok ==> categories == Reordered(old(categories), ids)
      ensures bookmarks == old(bookmarks)
      ensures old(Valid()) ==> Valid()
      ensures old(WellNamed()) ==> WellNamed()
    {
      if |ids| == 0 {
        return InvalidInput;
      }
      var i := 0;
      while i < |ids|
        invariant 0 <= i <= |ids|
        invariant categories == Reordered(old(categories), ids[..i])
        invariant bookmarks == old(bookmarks)
      {
        assert ids[..i + 1][..i] == ids[..i];
        var id := ids[i];
        if id in categories {
          var cat := categories[id];
          cat := cat.(order := i);
          categories := categories[id := cat];
        }
        i := i + 1;
      }
      assert ids[..|ids|] == ids;
      ReorderedKeepsRest(old(categories), ids);
      outcome := Ok;
    }

    // -------------------------------------------------------------------
    // Listings

    /** categoriesToSortedSlice: every category once, Uncategorized first, then by order. */
    method CategoriesToSortedSlice() returns (r: seq<Category>)
      requires Valid()
      ensures multiset(r) == multiset(categories.Values)
      ensures SortedBy(r, CategoryLess)
      ensures |r| > 0 && r[0] == categories[UncategorizedId]
    {
      var s := CollectValues(categories);
      CategoryKeyLessIsStrict();
      r := SortBy(s, CategoryKeyLess);
      MultisetOfSetDistinct(r, categories.Values);
      forall i, j | 0 <= i < j < |r|
        ensures !CategoryLess(r[j], r[i])
      {
        assert r[i] in multiset(r) && r[j] in multiset(r);
        assert r[i].id != UncategorizedId || r[j].id != UncategorizedId;
        CategoryLessMatchesKey(r[j], r[i]);
      }
      assert categories[UncategorizedId] in multiset(r);
      var u :| 0 <= u < |r| && r[u] == categories[UncategorizedId];
    }

    /**
     * bookmarksToSortedSlice: every bookmark once, in the comparator's order:
     * Uncategorized's first, then by category order, order, newest first.
     */
    method BookmarksToSortedSlice() returns (r: seq<Bookmark>)
      requires Valid()
      ensures multiset(r) == multiset(bookmarks.Values)
      ensures forall i, j :: 0 <= i < j < |r| ==> !BookmarkLess(categories, r[j], r[i])
    {
      var s := CollectValues(bookmarks);
      var cats := categories;
      BookmarkLessIsStrict(cats);
      r := SortBy(s, (a, b) => BookmarkLess(cats, a, b));
    }

    /**
     * getBookmarksJSON: the sorted listing with each bookmark's category
     * name filled in from the category table.
     */
    method ListBookmarks() returns (r: seq<Bookmark>)
      requires Valid()
      ensures forall i :: 0 <= i < |r| ==>
        r[i].id in bookmarks && r[i] == bookmarks[r[i].id].(category := CategoryName(categories, r[i].categoryId))
      ensures forall k :: k in bookmarks ==> exists i :: 0 <= i < |r| && r[i].id == k
      ensures forall i, j :: 0 <= i < j < |r| ==> r[i].id != r[j].id
      ensures forall i, j :: 0 <= i < j < |r| ==> !BookmarkLess(categories, r[j], r[i])
    {
      var s := BookmarksToSortedSlice();
      ListingCoversTable(bookmarks, s);
      r := s;
      var i := 0;
      while i < |r|
        invariant 0 <= i <= |r| && |r| == |s|
        invariant forall j :: 0 <= j < i ==> r[j] == s[j].(category := CategoryName(categories, s[j].categoryId))
        invariant forall j :: i <= j < |r| ==> r[j] == s[j]
      {
        r := r[i := r[i].(category := CategoryName(categories, r[i].categoryId))];
        i := i + 1;
      }
    }

    // -------------------------------------------------------------------
    // Loading

    /**
     * loadDatabase with main's fallback: a file of the current shape is
     * indexed by id and gets Uncategorized if it lacks it; a legacy list is
     * converted; anything else leaves the defaults.
     */
    method Load(file: StoredFile, newId: int -> string)
      requires FreshIds(newId)
      modifies this
      ensures Valid()
      ensures file.Unusable? ==> categories == map[UncategorizedId := DefaultUncategorized()] && bookmarks == map[]
      ensures file.CurrentShape? ==>
        && bookmarks == KeyedMap(file.bookmarks, IdOfBookmark)
        && var loaded := KeyedMap(file.categories, IdOfCategory);
           categories == if UncategorizedId in loaded then loaded else loaded[UncategorizedId := DefaultUncategorized()]
      ensures file.LegacyShape? ==>
        categories == Migrate(file.records, newId).categories && bookmarks == Migrate(file.records, newId).bookmarks
      ensures file.LegacyShape? ==> WellNamed()
    {
      match file {
        case Unusable =>
          InitializeDefaults();
        case CurrentShape(cs, bs) =>
          categories := SliceToCategoryMap(cs);
          bookmarks := SliceToBookmarkMap(bs);
          KeyedMapKeyedByKey(cs, IdOfCategory);
          KeyedMapKeyedByKey(bs, IdOfBookmark);
          if UncategorizedId !in categories {
            categories := categories[UncategorizedId := DefaultUncategorized()];
          }
        case LegacyShape(records) =>
          categories, bookmarks := MigrateRecords(records, newId);
      }
    }
  }

  /**
   * A list holding exactly the values of a bookmark table keyed by id holds
   * every bookmark of the table once.
   */
  lemma ListingCoversTable(bms: map<string, Bookmark>, s: seq<Bookmark>)
    requires BookmarksKeyedById(bms)
    requires multiset(s) == multiset(bms.Values)
    ensures forall i :: 0 <= i < |s| ==> s[i].id in bms && bms[s[i].id] == s[i]
    ensures forall k :: k in bms ==> exists i :: 0 <= i < |s| && s[i].id == k
    ensures forall i, j :: 0 <= i < j < |s| ==> s[i].id != s[j].id
  {
    MultisetOfSetDistinct(s, bms.Values);
    forall i | 0 <= i < |s|
      ensures s[i].id in bms && bms[s[i].id] == s[i]
    {
      assert s[i] in multiset(s);
    }
    forall k | k in bms
      ensures exists i :: 0 <= i < |s| && s[i].id == k
    {
      assert bms[k] in multiset(s);
    }
  }

  /** The last record that has the id of record q. */
  lemma {:induction false} LastOf(records: seq<LegacyBookmark>, q: int) returns (last: int)
    requires 0 <= q < |records|
    ensures LastWithKey(records, IdOfRecord, last) && records[last].id == records[q].id
    decreases |records| - q
  {
    if exists j :: q < j < |records| && records[j].id == records[q].id {
      var j :| q < j < |records| && records[j].id == records[q].id;
      last := LastOf(records, j);
    } else {
      last := q;
    }
  }
}
