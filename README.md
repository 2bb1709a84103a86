# bookmarkd store, modelled in Dafny

bookmarkd is a small self-hosted bookmark server. It keeps everything in two
in-memory tables: categories and bookmarks, both keyed by id. The reserved
category `uncategorized` ("Uncategorized") is always present. Every bookmark
references a category by id and has an integer `order`, its position in that
category.

This project models that store:

- the lookups;
- the bookmark operations: create (an upsert keyed by the URL), partial
  update, delete and visit;
- the category operations: create, update, delete and batch reorder;
- the three order-shifting helpers that update uses to repair positions;
- the two sorted listings and their comparators;
- start-up, which loads either file shape or falls back to the defaults.

Files:

- `model.dfy` (module `Model`): the records (`Category`, `Bookmark`, the
  legacy record), the reserved constants, the notes limit, category-name
  resolution, notes truncation and the favicon address.
- `ordering.dfy` (module `Ordering`): positions inside a category.
  - `Contiguous` says the n members of a category carry n distinct orders in
    0..n-1, which is the same as a permutation of 0..n-1.
  - The shift helpers are given as functions on a table.
  - Lemmas show when updates keep every category contiguous, and when
    create-over-an-existing-URL and delete can leave a gap.
- `snapshot.dfy` (module `Snapshot`): the two comparators, branch for
  branch, and an independent definition of each as a lexicographic sort key,
  with lemmas that the two agree. Also a verified insertion sort promising
  what `sort.Slice` promises.
- `migration.dfy` (module `Migration`): indexing a stored list into a table,
  and the conversion of the legacy flat list. The conversion is a left fold
  (`Migrate`), with a closed form for the category table it builds.
- `store.dfy` (module `BookmarkStore`): the `Store` class.
  - Its `categories` and `bookmarks` map fields are what the methods update.
  - Each loop the program runs over a map is a `while` loop over the
    remaining keys, proved against a specification function.

Non-deterministic inputs are parameters:

- `freshId` stands for `uuid.New()`.
- `idOf` stands for the SHA-1 URL id.
- `newId(n)` is the id of the n-th category the legacy conversion makes. It
  must be injective and never `uncategorized`.
- `now` is the clock.
- `host` is the URL's host name.

## Model

| member | source | states |
|---|---|---|
| Model.CategoryNameResolves | main.go:64-78 | With unique names, looking up the shown category name finds exactly the bookmark's category, or Uncategorized for a dangling reference (both directions). |
| Model.CategoryName | main.go:64-69 | A category id that exists shows that category's name; a dangling one shows "Uncategorized". While Uncategorized keeps its name, the shown name is always the name of some category. |
| Model.TruncateNotes | main.go:680-686 | The stored notes are a prefix of the given ones and at most 1000 bytes long. They are the given notes unchanged when those fit, and exactly 1000 bytes when they do not. |
| Model.FaviconFor | main.go:557-565 | The derived favicon address is the lookup-service prefix, then exactly the host, then the `&sz=64` suffix. |
| BookmarkStore.Store.CategoryByName | main.go:71-78 | The result is None only when no category has the name. Otherwise it is a stored category with that name. |
| BookmarkStore.MaxOrderIn | main.go:737-745 | The result is the largest order in the category, but never below -1 (so -1 for an empty category, and also when every member's order is below -1). |
| BookmarkStore.Store.MaxOrderInCategory | main.go:737-745 | The same, over the store's own table. |
| BookmarkStore.Store.MaxCategoryOrder | main.go:431-436 | The result is the largest category order, never less than 0. |
| BookmarkStore.ShiftOrdersInCategory | main.go:747-767 | The new table is `ShiftedInCategory`. Moving up, the orders in (old, new] of the category drop by one; moving down, those in [new, old) rise by one. The excluded id and other categories are untouched. |
| BookmarkStore.ShiftOrdersAfter | main.go:769-779 | The new table is `ShiftedAfter`: delta is added to the orders strictly above the threshold in the category, except the excluded id. |
| BookmarkStore.ShiftOrdersFrom | main.go:781-791 | The new table is `ShiftedFrom`: delta is added to the orders at or above the threshold in the category, except the excluded id. |
| Ordering.ShiftInCategoryNoop | main.go:748-750 | A move to the same position changes nothing. |
| Ordering.ContiguousIsPermutation | main.go:712-728 | A contiguous category's orders are exactly {0, …, n-1}. |
| Ordering.PermutationIsContiguous | main.go:712-728 | The converse: a category whose orders are exactly {0, …, n-1} is contiguous. |
| Ordering.ContiguousMaxOrder | main.go:737-745 | In a contiguous category of n bookmarks the maximum order is n-1. |
| Ordering.MoveWithinKeepsContiguous | main.go:720-721 | Moving a bookmark to an in-range position inside its own category keeps that category contiguous. |
| Ordering.MoveAcrossKeepsSourceContiguous | main.go:723 | Moving a bookmark out of its category closes the gap: the old category stays contiguous. |
| Ordering.MoveAcrossKeepsTargetContiguous | main.go:724 | Moving a bookmark into another category at a position in 0..n opens exactly one slot: the new category stays contiguous. |
| Ordering.MoveKeepsOtherContiguous | main.go:712-728 | The categories a move does not touch keep their contiguity. |
| Ordering.MoveKeepsAllContiguous | main.go:712-728 | When every category is contiguous and the target position is in range, every category is contiguous after the move. |
| BookmarkStore.Store.MoveBookmark | main.go:712-731 | The new table is the repair (`Relocate`) followed by writing the bookmark at its new place. Categories are unchanged. Contiguity is kept for an in-range target. |
| BookmarkStore.Patched | main.go:677-687 | A given title replaces the old one. Given notes replace the old ones: unchanged when they fit, otherwise exactly their first 1000 bytes. Absent fields keep their values, and no other field changes. |
| BookmarkStore.Store.ResolveCategoryForUpdate | main.go:689-710 | An explicit category_id wins. Otherwise an existing name resolves to its category, and an unknown non-empty name creates a category with order max(0, max)+1. With neither field the category stays. |
| BookmarkStore.Store.UpdateBookmark | main.go:654-735 | NotFound exactly for an unknown id, with nothing changed. Otherwise the patch is applied, and the bookmark is relocated when any location field is given. Category resolution is as above. Valid, unique names and (for in-range moves) contiguity are kept. |
| BookmarkStore.Store.ResolveCategoryForCreate | main.go:570-592 | An explicit category_id is used as given. An empty name or "Uncategorized" means the reserved category. Another name resolves to its category, or to a new one with order max(0, max)+1. |
| BookmarkStore.Store.AddCategory | main.go:576-589 | The new category gets order max(0, largest order)+1, above every existing category. Nothing else changes, and the names stay unique when the name was free. |
| BookmarkStore.Store.CreateBookmark | main.go:543-609 | The entry is written under idOf(url), replacing any earlier one. Its fields are the given ones, with the timestamp `now`, no visit, empty notes and the default favicon when none is given. Its order is one past the category's maximum. A new URL keeps every category contiguous. |
| Ordering.AppendKeepsAllContiguous | main.go:595-605 | A bookmark added under a new id at max+1 keeps every category contiguous. |
| Ordering.UpsertCanLeaveGap | main.go:595-605 | Re-posting a stored URL renumbers it to max+1, which can leave a gap: concrete tables. |
| BookmarkStore.Store.DeleteBookmark | main.go:623-635 | NotFound exactly for an unknown id. Otherwise the entry is removed and no other bookmark changes. |
| Ordering.DeleteCanLeaveGap | main.go:632 | Deleting the middle of three bookmarks leaves the orders {0, 2}: concrete tables. |
| BookmarkStore.Store.VisitBookmark | main.go:637-652 | NotFound exactly for an unknown id. Otherwise only the bookmark's lastVisited changes, set to `now`. |
| BookmarkStore.Store.CreateCategory | main.go:412-450 | An empty name gives InvalidInput and a taken name gives Conflict, each with the tables unchanged. Otherwise a new category is added with order max(0, max)+1. |
| BookmarkStore.Store.UpdateCategory | main.go:452-504 | NotFound when no category has the old name. Forbidden when Uncategorized would be renamed. Conflict when the new name is taken. In those cases the tables are unchanged. Otherwise exactly the given fields of that category are replaced. |
| BookmarkStore.RefileMembers | main.go:527-533 | Every bookmark of the category moves to Uncategorized, taking distinct orders above Uncategorized's old maximum m, within m+1..m+k. Every other bookmark is unchanged. |
| Ordering.ReassignedOrdersExactly | main.go:527-533 | The k refiled bookmarks use exactly the orders m+1..m+k. |
| Ordering.ReassignedEmptiesCategory | main.go:527-535 | After refiling, no bookmark references the deleted category. |
| Ordering.ReassignedKeepsAllContiguous | main.go:527-533 | Refiling keeps every contiguous category contiguous, Uncategorized included. |
| BookmarkStore.Store.DeleteCategory | main.go:506-539 | NotFound when no category has the name. Forbidden for Uncategorized. Both leave the tables unchanged. Otherwise the members are refiled as above and the category is removed. |
| BookmarkStore.Store.ReorderCategories | main.go:338-351 | An empty list gives InvalidInput with nothing changed. Otherwise the categories become `Reordered(old, ids)`. |
| BookmarkStore.ReorderedKeepsRest | main.go:346-351 | Reordering only changes orders: the same ids, and every other field kept. |
| BookmarkStore.ReorderedLastIndex | main.go:346-351 | A listed id that names a category ends with the index of its last listing. |
| BookmarkStore.ReorderedUnlisted | main.go:346-351 | A category that is not listed keeps its order. Unknown ids are ignored. |
| BookmarkStore.ReorderedPermutation | main.go:346-351 | Listing each category once numbers them 0..n-1 in list order. |
| Snapshot.CategoryLess | main.go:125-133 | categoriesToSortedSlice's comparator branch for branch; it has no contract of its own, and its meaning is stated by `Snapshot.CategoryLessMatchesKey`. |
| Snapshot.CategoryLessMatchesKey | main.go:125-133 | The category comparator agrees with the key order (Uncategorized first, then by order), in both directions. |
| Snapshot.BookmarkLess | main.go:90-110 | bookmarksToSortedSlice's comparator branch for branch, with a missing category read as Go's zero Category; its meaning is stated by `Snapshot.BookmarkLessMatchesKey` and `Snapshot.BookmarkLessIsStrict`. |
| Snapshot.BookmarkLessMatchesKey | main.go:90-110 | The bookmark comparator is exactly the lexicographic order of (Uncategorized first, category order, order, newest first). |
| Snapshot.BookmarkLessIsStrict | main.go:90-110 | The bookmark comparator is irreflexive and transitive. |
| Snapshot.SortedBookmarksUncategorizedFirst | main.go:94-99 | In a sorted listing, no Uncategorized bookmark comes after one of another category. |
| Snapshot.SortedBookmarksWithinCategory | main.go:105-109 | Within a category a sorted listing has ascending orders, and the newest first on ties. |
| Snapshot.SortBy | main.go:90-110 | The result is a permutation of the input with no inversion, which is what `sort.Slice` gives. |
| BookmarkStore.CollectValues | main.go:85-88 | The collected list holds exactly the table's values, each once (as a multiset), whatever order the map hands them out in; the same loop is at main.go:120-123. |
| BookmarkStore.Store.CategoriesToSortedSlice | main.go:115-136 | Every category appears once, sorted by the comparator, with Uncategorized first. |
| BookmarkStore.Store.BookmarksToSortedSlice | main.go:80-113 | Every bookmark appears once (as a multiset), in the comparator's order. |
| BookmarkStore.Store.ListBookmarks | main.go:611-621 | Every stored bookmark appears exactly once, in the comparator's order, with its category name filled in. |
| BookmarkStore.SliceToCategoryMap | main.go:146-152 | The table is `KeyedMap` of the list: the last entry with each id wins. |
| BookmarkStore.SliceToBookmarkMap | main.go:138-144 | The same for bookmarks. |
| Migration.KeyedMapKeys | main.go:138-152 | The table's keys are exactly the ids in the list. |
| Migration.KeyedMapLastWins | main.go:138-152 | Under each id the table holds the last list entry with that id. |
| BookmarkStore.Store.InitializeDefaults | main.go:182-192 | Only Uncategorized (order 0) is present, and there are no bookmarks. |
| BookmarkStore.Store.Load | main.go:795-885 | A current-shape file is indexed by id, and Uncategorized is added when missing. A legacy list becomes `Migrate(records)`. An unusable file leaves the defaults. The tables are valid afterwards. |
| BookmarkStore.MigrateRecords | main.go:841-881 | The conversion loop computes `Migrate(records)`. Its tables are keyed by id, with unique names and Uncategorized as the default entry. |
| Migration.Migrate | main.go:848-879 | At most one category is made per record. |
| Migration.FirstSeenNamesExact | main.go:848-879 | The first-seen name list holds every category name of the records except Uncategorized, each once, and nothing else. |
| Migration.FirstSeenOrder | main.go:848-879 | The names are in first-seen order. |
| Migration.MigrateCategories | main.go:848-879 | The category table is Uncategorized (order 0) plus, for the n-th first-seen name, the category newId(n) with that name and order n. |
| Migration.MigrateWellFormed | main.go:841-879 | The converted categories are keyed by id, with unique names, Uncategorized at order 0, and the others numbered distinctly within 1..n. |
| Migration.MigrateBookmarks | main.go:870-878 | There is one bookmark per record id, taken from the last record with that id. Its fields are kept, and it is filed under the category carrying the record's normalized name. |

## Left out

- JSON encoding and decoding, HTTP routing, status codes and CORS are left out. Each operation returns an `Outcome` in place of an HTTP status.
- Reading the stored file is left out. The loaded file enters the model as a `StoredFile`: one of the two shapes, or unusable.
- `saveDatabase` is left out, and so are its write failures.
- The theme loader and everything under `/api/themes` are not part of this model.
- `sync.RWMutex` locking is left out. Each operation is modelled as one atomic step, which is what holding the lock gives.
- uuid generation, the SHA-1 URL id, the clock and URL host parsing are parameters (`freshId`, `idOf`, `newId`, `now`, `host`). Their values are not modelled.
- Go's `sort.Slice` is replaced by a verified insertion sort with the same contract: a permutation, and no later element less than an earlier one. Which of several equal elements comes first is not fixed by either.
- Go map iteration order is modelled as an arbitrary choice of the next key. Every loop is proved correct for every order.
- Go `int` is modelled as unbounded: orders and timestamps do not overflow in the model.
- Each method that loops over a table works on a local copy of the map and assigns the result back. A Go map is updated in place, but no caller observes the difference, because nothing else holds the table during the call.
- Model.TruncateNotes: counts one `char` per byte. It does not model that cutting a UTF-8 string at byte 1000 can split a character.
- BookmarkStore.Store.UpdateBookmark: contiguity is proved only for target positions inside the category's range (`MoveInRange`). The program does not check the given order, so an out-of-range order can leave gaps or duplicates.
- BookmarkStore.Store.CategoryByName: with duplicate names (possible in a hand-edited current-shape file), the model returns some category with the name. The Go code returns the first one its map iteration meets, which is just as unspecified.

## Where the model follows the code

- deleteBookmark does not renumber the remaining bookmarks of the category (main.go:632); `Ordering.DeleteCanLeaveGap` shows the gap this leaves.
- createBookmark derives the id from the URL, so posting a stored URL again overwrites that entry and renumbers it to max+1 (`Ordering.UpsertCanLeaveGap`). It does not leave the table unchanged.
- An explicit category_id, on create or on update, is taken as given and not checked against the category table. `Valid` therefore does not promise referential integrity.
- updateCategory accepts any order value, so category orders may repeat after it.
- Migrated bookmarks have an empty display-name field, no visit time and empty notes. Only the listing fills in the category name.
