/**
 * Positions of bookmarks inside a category: the repair of `order` values
 * when a bookmark is added, moved or a category is emptied.
 *
 * The intended invariant is contiguity: inside one category the orders of
 * the n members are pairwise distinct and lie in 0..n-1, so that they are
 * a permutation of 0..n-1 (ContiguousIsPermutation).
 */
module Ordering {
  import opened Model

  /** The ids of the bookmarks that reference category `cat`. */
  ghost function Members(bms: map<string, Bookmark>, cat: string): set<string>
  {
    set id | id in bms && bms[id].categoryId == cat
  }

  /** The order values used inside category `cat`. */
  ghost function OrdersOf(bms: map<string, Bookmark>, cat: string): set<int>
  {
    set id | id in bms && bms[id].categoryId == cat :: bms[id].order
  }

  /** The integers lo..hi-1. */
  ghost function Range(lo: int, hi: int): (r: set<int>)
    ensures forall i :: i in r <==> lo <= i < hi
    decreases hi - lo
  {
    if hi <= lo then {} else Range(lo, hi - 1) + {hi - 1}
  }

  ghost predicate Contiguous(bms: map<string, Bookmark>, cat: string)
  {
    && (forall id :: id in bms && bms[id].categoryId == cat ==> 0 <= bms[id].order < |Members(bms, cat)|)
    && (forall a, b ::
          (a in bms && b in bms && bms[a].categoryId == cat && bms[b].categoryId == cat
           && bms[a].order == bms[b].order) ==> a == b)
  }

  ghost predicate AllContiguous(bms: map<string, Bookmark>)
  {
    forall cat :: Contiguous(bms, cat)
  }

  /**
   * `m` is what the running maximum of maxOrderInCategory ends with: the
   * largest order among the members of `cat`, but never below -1.
   */
  ghost predicate IsMaxOrder(bms: map<string, Bookmark>, cat: string, m: int)
  {
    && m >= -1
    && (forall id :: id in bms && bms[id].categoryId == cat ==> bms[id].order <= m)
    && (m == -1 || exists id :: id in bms && bms[id].categoryId == cat && bms[id].order == m)
  }

  /** The maximum order of a category, as a function of the table. */
  ghost function MaxOrder(bms: map<string, Bookmark>, cat: string): (m: int)
    ensures IsMaxOrder(bms, cat, m)
  {
    MaxOrderExists(bms, cat);
    var m :| IsMaxOrder(bms, cat, m); m
  }

  lemma {:induction false} MaxOrderExists(bms: map<string, Bookmark>, cat: string)
    ensures exists m :: IsMaxOrder(bms, cat, m)
    decreases |bms|
  {
    if |bms| == 0 {
      assert IsMaxOrder(bms, cat, -1);
    } else {
      var k :| k in bms;
      var rest := bms - {k};
      assert |rest| < |bms| by { assert rest.Keys == bms.Keys - {k}; }
      MaxOrderExists(rest, cat);
      var m :| IsMaxOrder(rest, cat, m);
      assert forall id :: id in rest ==> rest[id] == bms[id];
      if bms[k].categoryId == cat && bms[k].order > m {
        assert IsMaxOrder(bms, cat, bms[k].order);
      } else {
        assert IsMaxOrder(bms, cat, m);
      }
    }
  }

  lemma MaxOrderUnique(bms: map<string, Bookmark>, cat: string, m1: int, m2: int)
    requires IsMaxOrder(bms, cat, m1) && IsMaxOrder(bms, cat, m2)
    ensures m1 == m2
  {
  }

  // ---------------------------------------------------------------------
  // Cardinality facts behind "contiguous means a permutation of 0..n-1"

  lemma {:induction false} RangeCard(lo: int, hi: int)
    requires lo <= hi
    ensures |Range(lo, hi)| == hi - lo
    decreases hi - lo
  {
    if lo < hi {
      RangeCard(lo, hi - 1);
      assert Range(lo, hi) == Range(lo, hi - 1) + {hi - 1};
    } else {
      assert Range(lo, hi) == {};
    }
  }

  lemma {:induction false} InjectiveOrdersCard(bms: map<string, Bookmark>, s: set<string>)
    requires s <= bms.Keys
    requires forall a, b :: a in s && b in s && bms[a].order == bms[b].order ==> a == b
    ensures |set id | id in s :: bms[id].order| == |s|
    decreases |s|
  {
    if s != {} {
      var x :| x in s;
      var s' := s - {x};
      InjectiveOrdersCard(bms, s');
      var img := set id | id in s :: bms[id].order;
      var img' := set id | id in s' :: bms[id].order;
      assert img == img' + {bms[x].order};
      assert bms[x].order !in img';
    }
  }

  lemma {:induction false} SubsetSameCard<T>(a: set<T>, b: set<T>)
    requires a <= b && |a| == |b|
    ensures a == b
    decreases |b|
  {
    if a != b {
      var x :| x in b && x !in a;
      assert a <= b - {x};
      SubsetCard(a, b - {x});
    }
  }

  lemma {:induction false} SubsetCard<T>(a: set<T>, b: set<T>)
    requires a <= b
    ensures |a| <= |b|
    decreases |b|
  {
    if b != {} {
      var x :| x in b;
      SubsetCard(a - {x}, b - {x});
    }
  }

  /** n distinct orders inside lo..lo+n-1 are all of them. */
  lemma ImageFillsRange(bms: map<string, Bookmark>, s: set<string>, lo: int)
    requires s <= bms.Keys
    requires forall a, b :: a in s && b in s && bms[a].order == bms[b].order ==> a == b
    requires forall id :: id in s ==> lo <= bms[id].order < lo + |s|
    ensures (set id | id in s :: bms[id].order) == Range(lo, lo + |s|)
  {
    var img := set id | id in s :: bms[id].order;
    InjectiveOrdersCard(bms, s);
    RangeCard(lo, lo + |s|);
    assert img <= Range(lo, lo + |s|);
    SubsetSameCard(img, Range(lo, lo + |s|));
  }

  /** A set of bookmarks uses at most as many orders as it has members. */
  lemma {:induction false} OrdersCardAtMost(bms: map<string, Bookmark>, s: set<string>)
    requires s <= bms.Keys
    ensures |set id | id in s :: bms[id].order| <= |s|
    decreases |s|
  {
    if s != {} {
      var x :| x in s;
      var s' := s - {x};
      OrdersCardAtMost(bms, s');
      assert (set id | id in s :: bms[id].order) == (set id | id in s' :: bms[id].order) + {bms[x].order};
    }
  }

  /** Contiguity implies "the orders are a permutation of 0..n-1". */
  lemma ContiguousIsPermutation(bms: map<string, Bookmark>, cat: string)
    requires Contiguous(bms, cat)
    ensures OrdersOf(bms, cat) == Range(0, |Members(bms, cat)|)
  {
    var ms := Members(bms, cat);
    assert OrdersOf(bms, cat) == set id | id in ms :: bms[id].order;
    ImageFillsRange(bms, ms, 0);
  }

  /** ... and the converse: orders that are a permutation of 0..n-1 are contiguous. */
  lemma PermutationIsContiguous(bms: map<string, Bookmark>, cat: string)
    requires OrdersOf(bms, cat) == Range(0, |Members(bms, cat)|)
    ensures Contiguous(bms, cat)
  {
    var ms := Members(bms, cat);
    var n := |ms|;
    forall id | id in bms && bms[id].categoryId == cat
      ensures 0 <= bms[id].order < n
    {
      assert bms[id].order in OrdersOf(bms, cat);
    }
    forall a, b | a in bms && b in bms && bms[a].categoryId == cat && bms[b].categoryId == cat
                  && bms[a].order == bms[b].order
      ensures a == b
    {
      if a != b {
        var rest := ms - {a};
        assert OrdersOf(bms, cat) == set id | id in rest :: bms[id].order;
        OrdersCardAtMost(bms, rest);
        RangeCard(0, n);
        assert false;
      }
    }
  }

  /** A contiguous category of n members has maximum order n-1. */
  lemma ContiguousMaxOrder(bms: map<string, Bookmark>, cat: string)
    requires Contiguous(bms, cat)
    ensures IsMaxOrder(bms, cat, |Members(bms, cat)| - 1)
  {
    var n := |Members(bms, cat)|;
    if n > 0 {
      ContiguousIsPermutation(bms, cat);
      assert n - 1 in Range(0, n);
      assert n - 1 in OrdersOf(bms, cat);
    }
  }

  // ---------------------------------------------------------------------
  // The shift helpers, one bookmark at a time and over the whole table

  /** shiftOrdersInCategory's effect on one bookmark other than the moved one. */
  function ShiftWithin(b: Bookmark, cat: string, oldOrder: int, newOrder: int): Bookmark
  {
    if b.categoryId != cat then b else b.(order := WithinOrder(b.order, oldOrder, newOrder))
  }

  /**
   * Moving up, an order in (oldOrder, newOrder] steps down by one; moving
   * down, an order in [newOrder, oldOrder) steps up by one.
   */
  function WithinOrder(v: int, oldOrder: int, newOrder: int): int
  {
    if oldOrder < newOrder && oldOrder < v <= newOrder then v - 1
    else if newOrder < oldOrder && newOrder <= v < oldOrder then v + 1
    else v
  }

  function ShiftedInCategory(bms: map<string, Bookmark>, cat: string, oldOrder: int, newOrder: int,
                             exclude: string): map<string, Bookmark>
  {
    map id | id in bms :: if id == exclude then bms[id] else ShiftWithin(bms[id], cat, oldOrder, newOrder)
  }

  /** shiftOrdersAfter's effect on one bookmark: strictly above the threshold. */
  function ShiftAfter(b: Bookmark, cat: string, threshold: int, delta: int): Bookmark
  {
    if b.categoryId == cat && b.order > threshold then b.(order := b.order + delta) else b
  }

  function ShiftedAfter(bms: map<string, Bookmark>, cat: string, threshold: int, delta: int,
                        exclude: string): map<string, Bookmark>
  {
    map id | id in bms :: if id == exclude then bms[id] else ShiftAfter(bms[id], cat, threshold, delta)
  }

  /** shiftOrdersFrom's effect on one bookmark: at or above the threshold. */
  function ShiftFrom(b: Bookmark, cat: string, threshold: int, delta: int): Bookmark
  {
    if b.categoryId == cat && b.order >= threshold then b.(order := b.order + delta) else b
  }

  function ShiftedFrom(bms: map<string, Bookmark>, cat: string, threshold: int, delta: int,
                       exclude: string): map<string, Bookmark>
  {
    map id | id in bms :: if id == exclude then bms[id] else ShiftFrom(bms[id], cat, threshold, delta)
  }

  /**
   * The repair updateBookmark runs before it writes the moved bookmark back:
   * a shift inside the category, or closing the gap in the old category and
   * opening a slot in the new one.
   */
  function Relocate(bms: map<string, Bookmark>, id: string, newCat: string, newOrder: int): map<string, Bookmark>
    requires id in bms
  {
    var b := bms[id];
    if b.categoryId == newCat then ShiftedInCategory(bms, newCat, b.order, newOrder, id)
    else ShiftedFrom(ShiftedAfter(bms, b.categoryId, b.order, -1, id), newCat, newOrder, 1, id)
  }

  /** The repair followed by placing the moved bookmark at (newCat, newOrder). */
  function Moved(bms: map<string, Bookmark>, id: string, newCat: string, newOrder: int): map<string, Bookmark>
    requires id in bms
  {
    Relocate(bms, id, newCat, newOrder)[id := bms[id].(categoryId := newCat, order := newOrder)]
  }

  /** The target positions for which a move keeps its categories contiguous. */
  ghost predicate MoveInRange(bms: map<string, Bookmark>, id: string, newCat: string, newOrder: int)
    requires id in bms
  {
    if bms[id].categoryId == newCat then 0 <= newOrder < |Members(bms, newCat)|
    else 0 <= newOrder <= |Members(bms, newCat)|
  }

  // ---------------------------------------------------------------------
  // Properties of the shift helpers

  /** Moving to the position it already has changes nothing. */
  lemma ShiftInCategoryNoop(bms: map<string, Bookmark>, cat: string, order: int, exclude: string)
    ensures ShiftedInCategory(bms, cat, order, order, exclude) == bms
  {
    var r := ShiftedInCategory(bms, cat, order, order, exclude);
    assert forall id :: id in bms ==> r[id] == bms[id];
  }

  /**
   * shiftOrdersInCategory touches only the other members of the category
   * whose order lies between the old and the new position, and only by one
   * step towards the gap.
   */
  lemma ShiftInCategoryFrame(bms: map<string, Bookmark>, cat: string, oldOrder: int, newOrder: int,
                             exclude: string, id: string)
    requires id in bms
    ensures var r := ShiftedInCategory(bms, cat, oldOrder, newOrder, exclude);
      && r.Keys == bms.Keys
      && r[id].(order := bms[id].order) == bms[id]
      && (id == exclude || bms[id].categoryId != cat ==> r[id] == bms[id])
      && (r[id].order < bms[id].order ==> oldOrder < bms[id].order <= newOrder && r[id].order == bms[id].order - 1)
      && (r[id].order > bms[id].order ==> newOrder <= bms[id].order < oldOrder && r[id].order == bms[id].order + 1)
  {
  }

  /** Nothing outside the source and target categories changes. */
  lemma MovedFrame(bms: map<string, Bookmark>, id: string, newCat: string, newOrder: int, k: string)
    requires id in bms && k in bms && k != id
    requires bms[k].categoryId != bms[id].categoryId && bms[k].categoryId != newCat
    ensures Moved(bms, id, newCat, newOrder).Keys == bms.Keys
    ensures Moved(bms, id, newCat, newOrder)[k] == bms[k]
  {
  }

  lemma MembersUnchanged(bms: map<string, Bookmark>, r: map<string, Bookmark>, cat: string)
    requires r.Keys == bms.Keys
    requires forall k :: k in bms ==> (r[k].categoryId == cat <==> bms[k].categoryId == cat)
    ensures Members(r, cat) == Members(bms, cat)
  {
  }

  /** The repair only renumbers: every entry keeps its id, category and fields other than the order. */
  lemma RelocateOnlyRenumbers(bms: map<string, Bookmark>, id: string, newCat: string, newOrder: int)
    requires id in bms
    ensures Relocate(bms, id, newCat, newOrder).Keys == bms.Keys
    ensures forall k :: k in bms ==>
      Relocate(bms, id, newCat, newOrder)[k] == bms[k].(order := Relocate(bms, id, newCat, newOrder)[k].order)
  {
  }

  /** Where one bookmark ends up after a move, case by case. */
  lemma MovedAt(bms: map<string, Bookmark>, id: string, newCat: string, newOrder: int, k: string)
    requires id in bms && k in bms
    ensures var r := Moved(bms, id, newCat, newOrder);
      var b := bms[k];
      var s := bms[id].categoryId;
      var o := bms[id].order;
      && k in r
      && r[k] == (if k == id then b.(categoryId := newCat, order := newOrder)
                  else if s == newCat then
                    (if b.categoryId == s then b.(order := WithinOrder(b.order, o, newOrder)) else b)
                  else if b.categoryId == s then b.(order := if b.order > o then b.order - 1 else b.order)
                  else if b.categoryId == newCat then b.(order := if b.order >= newOrder then b.order + 1 else b.order)
                  else b)
  {
  }

  /** A move inside one category to a position in 0..n-1 keeps it contiguous. */
  lemma MoveWithinKeepsContiguous(bms: map<string, Bookmark>, id: string, newOrder: int)
    requires id in bms
    requires Contiguous(bms, bms[id].categoryId)
    requires 0 <= newOrder < |Members(bms, bms[id].categoryId)|
    ensures Contiguous(Moved(bms, id, bms[id].categoryId, newOrder), bms[id].categoryId)
  {
    var c := bms[id].categoryId;
    var o := bms[id].order;
    var r := Moved(bms, id, c, newOrder);
    forall k | k in bms
      ensures k in r && r[k].categoryId == bms[k].categoryId
    {
      MovedAt(bms, id, c, newOrder, k);
    }
    MembersUnchanged(bms, r, c);
    var n := |Members(bms, c)|;
    forall k | k in r && r[k].categoryId == c
      ensures 0 <= r[k].order < n
    {
      MovedAt(bms, id, c, newOrder, k);
      if k != id {
        WithinOrderBounds(bms[k].order, o, newOrder, n);
      }
    }
    forall a, b | a in r && b in r && r[a].categoryId == c && r[b].categoryId == c && r[a].order == r[b].order
      ensures a == b
    {
      MovedAt(bms, id, c, newOrder, a);
      MovedAt(bms, id, c, newOrder, b);
      if a != id && b != id {
        WithinOrderInjective(bms[a].order, bms[b].order, o, newOrder);
      } else if a != id {
        WithinOrderInjective(bms[a].order, bms[a].order, o, newOrder);
      } else if b != id {
        WithinOrderInjective(bms[b].order, bms[b].order, o, newOrder);
      }
    }
  }

  lemma WithinOrderBounds(v: int, o: int, newOrder: int, n: int)
    requires 0 <= v < n && 0 <= o < n && 0 <= newOrder < n && v != o
    ensures 0 <= WithinOrder(v, o, newOrder) < n
  {
  }

  lemma WithinOrderInjective(v1: int, v2: int, o: int, newOrder: int)
    requires v1 != o && v2 != o
    ensures WithinOrder(v1, o, newOrder) == WithinOrder(v2, o, newOrder) ==> v1 == v2
    ensures WithinOrder(v1, o, newOrder) != newOrder
  {
  }

  /** Closing the gap keeps the old category contiguous with one member fewer. */
  lemma MoveAcrossKeepsSourceContiguous(bms: map<string, Bookmark>, id: string, newCat: string, newOrder: int)
    requires id in bms && bms[id].categoryId != newCat
    requires Contiguous(bms, bms[id].categoryId)
    ensures Contiguous(Moved(bms, id, newCat, newOrder), bms[id].categoryId)
  {
    var s := bms[id].categoryId;
    var o := bms[id].order;
    var r := Moved(bms, id, newCat, newOrder);
    MoveAcrossSourceMembers(bms, id, newCat, newOrder);
    var n := |Members(bms, s)|;
    forall k | k in r && r[k].categoryId == s
      ensures 0 <= r[k].order < n - 1
    {
      MovedAt(bms, id, newCat, newOrder, k);
      assert bms[k].order != o;
    }
    forall a, b | a in r && b in r && r[a].categoryId == s && r[b].categoryId == s && r[a].order == r[b].order
      ensures a == b
    {
      MovedAt(bms, id, newCat, newOrder, a);
      MovedAt(bms, id, newCat, newOrder, b);
      assert bms[a].order != o && bms[b].order != o;
    }
  }

  /** Opening a slot at 0..n keeps the new category contiguous with one member more. */
  lemma MoveAcrossKeepsTargetContiguous(bms: map<string, Bookmark>, id: string, newCat: string, newOrder: int)
    requires id in bms && bms[id].categoryId != newCat
    requires Contiguous(bms, newCat)
    requires 0 <= newOrder <= |Members(bms, newCat)|
    ensures Contiguous(Moved(bms, id, newCat, newOrder), newCat)
  {
    var r := Moved(bms, id, newCat, newOrder);
    MoveAcrossTargetMembers(bms, id, newCat, newOrder);
    var n := |Members(bms, newCat)|;
    forall k | k in r && r[k].categoryId == newCat
      ensures 0 <= r[k].order < n + 1
    {
      MovedAt(bms, id, newCat, newOrder, k);
    }
    forall a, b | a in r && b in r && r[a].categoryId == newCat && r[b].categoryId == newCat && r[a].order == r[b].order
      ensures a == b
    {
      MovedAt(bms, id, newCat, newOrder, a);
      MovedAt(bms, id, newCat, newOrder, b);
    }
  }

  /** Moving across categories takes one member from the source ... */
  lemma MoveAcrossSourceMembers(bms: map<string, Bookmark>, id: string, newCat: string, newOrder: int)
    requires id in bms && bms[id].categoryId != newCat
    ensures Moved(bms, id, newCat, newOrder).Keys == bms.Keys
    ensures Members(Moved(bms, id, newCat, newOrder), bms[id].categoryId) == Members(bms, bms[id].categoryId) - {id}
    ensures |Members(Moved(bms, id, newCat, newOrder), bms[id].categoryId)| == |Members(bms, bms[id].categoryId)| - 1
  {
    var s := bms[id].categoryId;
    var r := Moved(bms, id, newCat, newOrder);
    forall k | k in bms
      ensures k in r && (r[k].categoryId == s <==> k in Members(bms, s) - {id})
    {
      MovedAt(bms, id, newCat, newOrder, k);
    }
    assert r.Keys == bms.Keys;
    assert Members(r, s) == Members(bms, s) - {id};
  }

  /** ... and gives one to the target. */
  lemma MoveAcrossTargetMembers(bms: map<string, Bookmark>, id: string, newCat: string, newOrder: int)
    requires id in bms && bms[id].categoryId != newCat
    ensures Moved(bms, id, newCat, newOrder).Keys == bms.Keys
    ensures Members(Moved(bms, id, newCat, newOrder), newCat) == Members(bms, newCat) + {id}
    ensures |Members(Moved(bms, id, newCat, newOrder), newCat)| == |Members(bms, newCat)| + 1
  {
    var r := Moved(bms, id, newCat, newOrder);
    forall k | k in bms
      ensures k in r && (r[k].categoryId == newCat <==> k in Members(bms, newCat) + {id})
    {
      MovedAt(bms, id, newCat, newOrder, k);
    }
    assert r.Keys == bms.Keys;
    assert Members(r, newCat) == Members(bms, newCat) + {id};
  }

  /** A category that is neither source nor target keeps its members and their orders. */
  lemma MoveKeepsOtherContiguous(bms: map<string, Bookmark>, id: string, newCat: string, newOrder: int, c: string)
    requires id in bms && c != bms[id].categoryId && c != newCat
    requires Contiguous(bms, c)
    ensures Contiguous(Moved(bms, id, newCat, newOrder), c)
  {
    var r := Moved(bms, id, newCat, newOrder);
    forall k | k in bms && (r[k].categoryId == c || bms[k].categoryId == c)
      ensures r[k] == bms[k]
    {
      if k != id {
        MovedFrame(bms, id, newCat, newOrder, k);
      }
    }
    MembersUnchanged(bms, r, c);
  }

  /**
   * The heart of updateBookmark: when every category is contiguous and the
   * requested position is in range, every category is contiguous after the
   * move as well.
   */
  lemma MoveKeepsAllContiguous(bms: map<string, Bookmark>, id: string, newCat: string, newOrder: int)
    requires id in bms
    requires AllContiguous(bms)
    requires MoveInRange(bms, id, newCat, newOrder)
    ensures AllContiguous(Moved(bms, id, newCat, newOrder))
  {
    var s := bms[id].categoryId;
    forall c
      ensures Contiguous(Moved(bms, id, newCat, newOrder), c)
    {
      assert Contiguous(bms, c);
      if s == newCat {
        if c == s {
          MoveWithinKeepsContiguous(bms, id, newOrder);
        } else {
          MoveKeepsOtherContiguous(bms, id, newCat, newOrder, c);
        }
      } else if c == s {
        MoveAcrossKeepsSourceContiguous(bms, id, newCat, newOrder);
      } else if c == newCat {
        MoveAcrossKeepsTargetContiguous(bms, id, newCat, newOrder);
      } else {
        MoveKeepsOtherContiguous(bms, id, newCat, newOrder, c);
      }
    }
  }

  // ---------------------------------------------------------------------
  // Adding a bookmark (createBookmark) and removing one (deleteBookmark)

  /**
   * createBookmark places a new bookmark at max + 1 of its category; for a
   * URL not yet stored this keeps every category contiguous.
   */
  lemma AppendKeepsAllContiguous(bms: map<string, Bookmark>, key: string, b: Bookmark)
    requires AllContiguous(bms)
    requires key !in bms
    requires IsMaxOrder(bms, b.categoryId, b.order - 1)
    ensures AllContiguous(bms[key := b])
  {
    var c := b.categoryId;
    assert Contiguous(bms, c);
    ContiguousMaxOrder(bms, c);
    MaxOrderUnique(bms, c, b.order - 1, |Members(bms, c)| - 1);
    var r := bms[key := b];
    forall cat
      ensures Contiguous(r, cat)
    {
      assert Contiguous(bms, cat);
      AppendKeepsContiguous(bms, key, b, cat);
    }
  }

  lemma AppendKeepsContiguous(bms: map<string, Bookmark>, key: string, b: Bookmark, cat: string)
    requires Contiguous(bms, cat)
    requires key !in bms
    requires cat == b.categoryId ==> b.order == |Members(bms, cat)|
    ensures Contiguous(bms[key := b], cat)
  {
    var r := bms[key := b];
    MembersAfterInsert(bms, key, b, cat);
    var n := |Members(r, cat)|;
    forall id | id in r && r[id].categoryId == cat
      ensures 0 <= r[id].order < n
    {
      if id != key {
        assert bms[id].categoryId == cat;
      }
    }
    forall x, y | x in r && y in r && r[x].categoryId == cat && r[y].categoryId == cat && r[x].order == r[y].order
      ensures x == y
    {
      if x != key && y != key {
        assert bms[x].categoryId == cat && bms[y].categoryId == cat;
      }
    }
  }

  lemma MembersAfterInsert(bms: map<string, Bookmark>, key: string, b: Bookmark, cat: string)
    requires key !in bms
    ensures Members(bms[key := b], cat) == if b.categoryId == cat then Members(bms, cat) + {key} else Members(bms, cat)
    ensures |Members(bms[key := b], cat)| == |Members(bms, cat)| + if b.categoryId == cat then 1 else 0
  {
    var r := bms[key := b];
    if b.categoryId == cat {
      assert Members(r, cat) == Members(bms, cat) + {key};
    } else {
      assert Members(r, cat) == Members(bms, cat);
    }
  }

  /**
   * createBookmark for a URL already stored overwrites the entry in place
   * but still numbers it max + 1, which can leave a gap behind.
   */
  lemma UpsertCanLeaveGap()
    ensures var b0 := Bookmark("k0", "u0", "", "", "c", 0, "", 0, None, "");
      var b1 := Bookmark("k1", "u1", "", "", "c", 0, "", 1, None, "");
      var bms := map["k0" := b0, "k1" := b1];
      && AllContiguous(bms)
      && IsMaxOrder(bms, "c", 1)
      && !Contiguous(bms["k0" := b0.(order := 2)], "c")
  {
    var b0 := Bookmark("k0", "u0", "", "", "c", 0, "", 0, None, "");
    var b1 := Bookmark("k1", "u1", "", "", "c", 0, "", 1, None, "");
    var bms := map["k0" := b0, "k1" := b1];
    forall cat
      ensures Contiguous(bms, cat)
    {
      if cat == "c" {
        assert Members(bms, cat) == {"k0", "k1"};
      } else {
        assert Members(bms, cat) == {};
      }
    }
    var r := bms["k0" := b0.(order := 2)];
    assert Members(r, "c") == {"k0", "k1"};
  }

  /**
   * deleteBookmark removes the entry and renumbers nothing: deleting the
   * middle one of three bookmarks leaves the orders {0, 2}.
   */
  lemma DeleteCanLeaveGap()
    ensures var bms := map["a" := Bookmark("a", "", "", "", "c", 0, "", 0, None, ""),
                           "b" := Bookmark("b", "", "", "", "c", 0, "", 1, None, ""),
                           "d" := Bookmark("d", "", "", "", "c", 0, "", 2, None, "")];
      && Contiguous(bms, "c")
      && OrdersOf(bms - {"b"}, "c") == {0, 2}
      && !Contiguous(bms - {"b"}, "c")
  {
    var bms := map["a" := Bookmark("a", "", "", "", "c", 0, "", 0, None, ""),
                   "b" := Bookmark("b", "", "", "", "c", 0, "", 1, None, ""),
                   "d" := Bookmark("d", "", "", "", "c", 0, "", 2, None, "")];
    assert Members(bms, "c") == {"a", "b", "d"};
    var r := bms - {"b"};
    assert r == map["a" := bms["a"], "d" := bms["d"]];
    assert Members(r, "c") == {"a", "d"};
    assert OrdersOf(r, "c") == {0, 2};
  }

  // ---------------------------------------------------------------------
  // Emptying a category (deleteCategory)

  /**
   * What deleteCategory's loop does to the bookmark table, where m is
   * Uncategorized's maximum order before: every member of `cat` moves to
   * Uncategorized with an order above m, the k moved bookmarks taking
   * distinct orders among m+1..m+k; nothing else changes.
   */
  ghost predicate ReassignedToUncategorized(before: map<string, Bookmark>, after: map<string, Bookmark>,
                                            cat: string, m: int)
  {
    var k := |Members(before, cat)|;
    && after.Keys == before.Keys
    && (forall id :: id in before && before[id].categoryId != cat ==> after[id] == before[id])
    && (forall id :: id in before && before[id].categoryId == cat ==>
          && after[id] == before[id].(categoryId := UncategorizedId, order := after[id].order)
          && m < after[id].order <= m + k)
    && (forall a, b ::
          (a in before && b in before && before[a].categoryId == cat && before[b].categoryId == cat
           && after[a].order == after[b].order) ==> a == b)
  }

  /** The moved bookmarks use exactly the orders m+1..m+k. */
  lemma ReassignedOrdersExactly(before: map<string, Bookmark>, after: map<string, Bookmark>, cat: string, m: int)
    requires ReassignedToUncategorized(before, after, cat, m)
    ensures (set id | id in Members(before, cat) :: after[id].order) == Range(m + 1, m + 1 + |Members(before, cat)|)
  {
    var ms := Members(before, cat);
    assert ms <= after.Keys;
    assert forall a, b :: a in ms && b in ms && after[a].order == after[b].order ==> a == b;
    assert forall id :: id in ms ==> m + 1 <= after[id].order < m + 1 + |ms|;
    ImageFillsRange(after, ms, m + 1);
  }

  /** Refiling changes no bookmark's id. */
  lemma ReassignedKeepsIds(before: map<string, Bookmark>, after: map<string, Bookmark>, cat: string, m: int)
    requires ReassignedToUncategorized(before, after, cat, m)
    requires BookmarksKeyedById(before)
    ensures BookmarksKeyedById(after)
  {
    forall id | id in after
      ensures after[id].id == id
    {
      assert after[id].id == before[id].id;
    }
  }

  /** No bookmark references the deleted category any more. */
  lemma ReassignedEmptiesCategory(before: map<string, Bookmark>, after: map<string, Bookmark>, cat: string, m: int)
    requires cat != UncategorizedId
    requires ReassignedToUncategorized(before, after, cat, m)
    ensures Members(after, cat) == {}
  {
    forall id | id in after
      ensures after[id].categoryId != cat
    {
    }
  }

  /**
   * If Uncategorized was contiguous, deleteCategory leaves it contiguous:
   * the moved bookmarks continue its numbering.
   */
  lemma ReassignedKeepsUncategorizedContiguous(before: map<string, Bookmark>, after: map<string, Bookmark>,
                                               cat: string, m: int)
    requires cat != UncategorizedId
    requires Contiguous(before, UncategorizedId)
    requires IsMaxOrder(before, UncategorizedId, m)
    requires ReassignedToUncategorized(before, after, cat, m)
    ensures Contiguous(after, UncategorizedId)
  {
    var u := UncategorizedId;
    ContiguousMaxOrder(before, u);
    MaxOrderUnique(before, u, m, |Members(before, u)| - 1);
    ReassignedMembers(before, after, cat);
    ReassignedUncategorizedBounds(before, after, cat, m);
    ReassignedUncategorizedDistinct(before, after, cat, m);
  }

  lemma ReassignedUncategorizedBounds(before: map<string, Bookmark>, after: map<string, Bookmark>,
                                      cat: string, m: int)
    requires cat != UncategorizedId
    requires Contiguous(before, UncategorizedId)
    requires m == |Members(before, UncategorizedId)| - 1
    requires ReassignedToUncategorized(before, after, cat, m)
    requires |Members(after, UncategorizedId)| == |Members(before, UncategorizedId)| + |Members(before, cat)|
    ensures forall id :: id in after && after[id].categoryId == UncategorizedId ==>
      0 <= after[id].order < |Members(after, UncategorizedId)|
  {
  }

  lemma ReassignedUncategorizedDistinct(before: map<string, Bookmark>, after: map<string, Bookmark>,
                                        cat: string, m: int)
    requires cat != UncategorizedId
    requires Contiguous(before, UncategorizedId)
    requires IsMaxOrder(before, UncategorizedId, m)
    requires ReassignedToUncategorized(before, after, cat, m)
    ensures forall a, b ::
      (a in after && b in after && after[a].categoryId == UncategorizedId
       && after[b].categoryId == UncategorizedId && after[a].order == after[b].order) ==> a == b
  {
  }

  lemma ReassignedMembers(before: map<string, Bookmark>, after: map<string, Bookmark>, cat: string)
    requires cat != UncategorizedId
    requires after.Keys == before.Keys
    requires forall id :: id in before && before[id].categoryId != cat ==> after[id] == before[id]
    requires forall id :: id in before && before[id].categoryId == cat ==> after[id].categoryId == UncategorizedId
    ensures Members(after, UncategorizedId) == Members(before, UncategorizedId) + Members(before, cat)
    ensures |Members(after, UncategorizedId)| == |Members(before, UncategorizedId)| + |Members(before, cat)|
  {
    assert Members(after, UncategorizedId) == Members(before, UncategorizedId) + Members(before, cat);
    assert Members(before, UncategorizedId) * Members(before, cat) == {};
  }

  /** deleteCategory keeps every category contiguous that was. */
  lemma ReassignedKeepsAllContiguous(before: map<string, Bookmark>, after: map<string, Bookmark>, cat: string, m: int)
    requires cat != UncategorizedId
    requires AllContiguous(before)
    requires IsMaxOrder(before, UncategorizedId, m)
    requires ReassignedToUncategorized(before, after, cat, m)
    ensures AllContiguous(after)
  {
    forall c
      ensures Contiguous(after, c)
    {
      if c == UncategorizedId {
        ReassignedKeepsUncategorizedContiguous(before, after, cat, m);
      } else if c == cat {
        ReassignedEmptiesCategory(before, after, cat, m);
      } else {
        MembersUnchanged(before, after, c);
        assert Contiguous(before, c);
      }
    }
  }

  /**
   * deleteCategory's loop part way: the bookmarks in `moved` (the members of
   * `cat` already visited) are refiled under Uncategorized, the ones still
   * in `todo` are untouched ...
   */
  ghost predicate ReassignFrame(before: map<string, Bookmark>, after: map<string, Bookmark>, cat: string,
                                moved: set<string>, todo: set<string>)
  {
    && todo <= before.Keys && after.Keys == before.Keys
    && moved == Members(before, cat) - todo
    && (forall id :: id in before ==>
          after[id] == if id in moved then before[id].(categoryId := UncategorizedId, order := after[id].order)
                       else before[id])
  }

  /**
   * ... and have taken distinct orders among m+1..m+k, the last of them,
   * m+k, now the largest in Uncategorized (k counts the moved bookmarks).
   */
  ghost predicate ReassignOrders(after: map<string, Bookmark>, m: int, moved: set<string>, k: nat)
  {
    && moved <= after.Keys
    && (forall id :: id in moved ==> m < after[id].order <= m + k)
    && (forall a, b :: a in moved && b in moved && after[a].order == after[b].order ==> a == b)
    && IsMaxOrder(after, UncategorizedId, m + k)
  }

  lemma ReassignStart(before: map<string, Bookmark>, cat: string, m: int)
    requires IsMaxOrder(before, UncategorizedId, m)
    ensures ReassignFrame(before, before, cat, {}, before.Keys)
    ensures ReassignOrders(before, m, {}, 0)
  {
  }

  /** Visiting a member of `cat`: it leaves `todo` for `moved` ... */
  lemma ReassignFrameMove(before: map<string, Bookmark>, after: map<string, Bookmark>, cat: string,
                          moved: set<string>, todo: set<string>, id: string, n: int)
    requires ReassignFrame(before, after, cat, moved, todo)
    requires id in todo && before[id].categoryId == cat
    ensures id !in moved && |moved + {id}| == |moved| + 1
    ensures ReassignFrame(before, after[id := after[id].(categoryId := UncategorizedId, order := n)],
                          cat, moved + {id}, todo - {id})
  {
  }

  /** ... and goes to Uncategorized after the current last there. */
  lemma ReassignOrdersMove(after: map<string, Bookmark>, m: int, moved: set<string>, k: nat, id: string, mx: int)
    requires ReassignOrders(after, m, moved, k)
    requires id in after && id !in moved && IsMaxOrder(after, UncategorizedId, mx)
    ensures ReassignOrders(after[id := after[id].(categoryId := UncategorizedId, order := mx + 1)],
                           m, moved + {id}, k + 1)
  {
    MaxOrderUnique(after, UncategorizedId, mx, m + k);
    var n := mx + 1;
    var after' := after[id := after[id].(categoryId := UncategorizedId, order := n)];
    var moved' := moved + {id};
    forall a, b | a in moved' && b in moved' && after'[a].order == after'[b].order
      ensures a == b
    {
      if a != id && b != id {
        assert after[a].order == after[b].order;
      }
    }
    ReassignMoveMax(after, m + k, id);
  }

  lemma ReassignMoveMax(after: map<string, Bookmark>, m: int, id: string)
    requires id in after
    requires IsMaxOrder(after, UncategorizedId, m)
    ensures IsMaxOrder(after[id := after[id].(categoryId := UncategorizedId, order := m + 1)], UncategorizedId, m + 1)
  {
    var after' := after[id := after[id].(categoryId := UncategorizedId, order := m + 1)];
    assert after'[id].categoryId == UncategorizedId && after'[id].order == m + 1;
  }

  /** Visiting any other bookmark changes nothing. */
  lemma ReassignSkip(before: map<string, Bookmark>, after: map<string, Bookmark>, cat: string,
                     moved: set<string>, todo: set<string>, id: string)
    requires ReassignFrame(before, after, cat, moved, todo)
    requires id in todo && before[id].categoryId != cat
    ensures ReassignFrame(before, after, cat, moved, todo - {id})
  {
  }

  lemma ReassignDone(before: map<string, Bookmark>, after: map<string, Bookmark>, cat: string, m: int,
                     moved: set<string>)
    requires ReassignFrame(before, after, cat, moved, {})
    requires ReassignOrders(after, m, moved, |moved|)
    ensures ReassignedToUncategorized(before, after, cat, m)
  {
  }
}
