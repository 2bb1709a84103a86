/**
 * The records of the bookmark store and the small pure helpers over them.
 *
 * Go strings are byte strings; here a `string` stands for one, each `char`
 * standing for one byte.
 */
module Model {

  datatype Option<T> = None | Some(value: T)

  /** The reserved id and name of the category that always exists. */
  const UncategorizedId: string := "uncategorized"
  const UncategorizedName: string := "Uncategorized"

  /** Notes longer than this many bytes are cut on update. */
  const NotesLimit: nat := 1000

  datatype Category = Category(id: string, name: string, order: int, color: string)

  /**
   * A stored bookmark. `category` is the display name that only the listing
   * fills in; `categoryId` is the reference into the category table.
   */
  datatype Bookmark = Bookmark(
    id: string,
    url: string,
    title: string,
    category: string,
    categoryId: string,
    timestamp: int,
    favicon: string,
    order: int,
    lastVisited: Option<int>,
    notes: string)

  /** A record of the older file shape: a flat list, category given by name. */
  datatype LegacyBookmark = LegacyBookmark(
    id: string,
    url: string,
    title: string,
    category: string,
    timestamp: int,
    favicon: string,
    order: int)

  /** What a store operation reports back to its caller. */
  datatype Outcome = Ok | InvalidInput | NotFound | Conflict | Forbidden

  /** The Uncategorized entry as every load path and the default state create it. */
  function DefaultUncategorized(): Category
  {
    Category(UncategorizedId, UncategorizedName, 0, "")
  }

  /** Some category of the table carries this name. */
  ghost predicate HasName(cats: map<string, Category>, name: string)
  {
    exists k :: k in cats && cats[k].name == name
  }

  /** No two categories share a name. */
  ghost predicate UniqueNames(cats: map<string, Category>)
  {
    forall k1, k2 :: k1 in cats && k2 in cats && cats[k1].name == cats[k2].name ==> k1 == k2
  }

  /** Every entry is stored under its own id. */
  ghost predicate KeyedById(cats: map<string, Category>)
  {
    forall k :: k in cats ==> cats[k].id == k
  }

  ghost predicate BookmarksKeyedById(bms: map<string, Bookmark>)
  {
    forall k :: k in bms ==> bms[k].id == k
  }

  /**
   * The name shown for a category id: the category's own name, or
   * "Uncategorized" when the id references no category.
   */
  function CategoryName(cats: map<string, Category>, id: string): (r: string)
    ensures id in cats ==> r == cats[id].name
    ensures UncategorizedId in cats && cats[UncategorizedId].name == UncategorizedName ==> HasName(cats, r)
  {
    if id in cats then cats[id].name else UncategorizedName
  }

  /**
   * When names are unique and Uncategorized keeps its name, looking the shown
   * name up again leads back to the bookmark's category, or to Uncategorized
   * for a reference into nothing.
   */
  lemma CategoryNameResolves(cats: map<string, Category>, id: string, k: string)
    requires UniqueNames(cats)
    requires UncategorizedId in cats && cats[UncategorizedId].name == UncategorizedName
    requires k in cats
    ensures cats[k].name == CategoryName(cats, id) <==> k == (if id in cats then id else UncategorizedId)
  {
    if id in cats {
      if cats[k].name == cats[id].name {
        assert k == id;
      }
    } else {
      if cats[k].name == UncategorizedName {
        assert cats[k].name == cats[UncategorizedId].name;
      }
    }
  }

  /** Notes are cut to their first NotesLimit bytes. */
  function TruncateNotes(notes: string): (r: string)
    ensures r <= notes
    ensures |r| <= NotesLimit
    ensures |notes| <= NotesLimit ==> r == notes
    ensures |notes| > NotesLimit ==> |r| == NotesLimit
  {
    if |notes| > NotesLimit then notes[..NotesLimit] else notes
  }

  /** The favicon lookup service's address, split around the host it is asked about. */
  const FaviconPrefix: string := "https://www.google.com/s2/favicons?domain="
  const FaviconSuffix: string := "&sz=64"

  /** The favicon address derived from a bookmark URL's host. */
  function FaviconFor(host: string): (r: string)
    ensures |r| == |FaviconPrefix| + |host| + |FaviconSuffix|
    ensures r[..|FaviconPrefix|] == FaviconPrefix
    ensures r[|FaviconPrefix|..|r| - |FaviconSuffix|] == host
    ensures r[|r| - |FaviconSuffix|..] == FaviconSuffix
  {
    FaviconPrefix + host + FaviconSuffix
  }

  /** An empty name or the literal "Uncategorized" denotes the reserved category. */
  predicate MeansUncategorized(name: string)
  {
    name == "" || name == UncategorizedName
  }
}
