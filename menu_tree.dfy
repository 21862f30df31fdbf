/**
 * The sub-menu discovery walk shared by both versions of the component
 * (`findSubMenus`): for each child item of a list, in document order, take
 * the first nested list, if any, record it, then walk into it before moving
 * on to the next item. The walk is a pure function of the document
 * structure; `Found` records what the walk knows at the moment a sub-menu is
 * found: the list, the item that owns it, the depth the dist version gives
 * it and the item's position among its siblings that version 0.0.1 uses.
 */
module MenuTree {
  import opened Wrappers
  import opened Dom

  datatype Found = Found(list: nat, item: nat, depth: nat, index: nat)

  /** The lists found, in the order found. */
  function Lists(fs: seq<Found>): (r: seq<nat>)
    ensures |r| == |fs|
  {
    if fs == [] then [] else [fs[0].list] + Lists(fs[1..])
  }

  /** The `k`-th entry of `Lists(fs)` is the list of the `k`-th discovery. */
  lemma {:induction false} ListsAt(fs: seq<Found>, k: nat)
    requires k < |fs|
    ensures Lists(fs)[k] == fs[k].list
  {
    if k > 0 {
      ListsAt(fs[1..], k - 1);
    }
  }

  /** `n` is one of the lists found. */
  predicate Listed(fs: seq<Found>, n: nat) {
    exists k | 0 <= k < |fs| :: fs[k].list == n
  }

  /** A list found by the walk is found by its prefix, or is the last one. */
  lemma ListedSnoc(fs: seq<Found>, n: nat)
    requires fs != []
    ensures Listed(fs, n) <==> Listed(fs[..|fs| - 1], n) || fs[|fs| - 1].list == n
  {
    var p := fs[..|fs| - 1];
    if Listed(fs, n) && fs[|fs| - 1].list != n {
      var k :| 0 <= k < |fs| && fs[k].list == n;
      assert p[k].list == n;
    }
    if Listed(p, n) {
      var k :| 0 <= k < |p| && p[k].list == n;
      assert fs[k].list == n;
    }
  }

  /** `Lists` holds exactly the lists found. */
  lemma ListsListed(fs: seq<Found>, n: nat)
    ensures n in Lists(fs) <==> Listed(fs, n)
  {
    if n in Lists(fs) {
      var k :| 0 <= k < |Lists(fs)| && Lists(fs)[k] == n;
      ListsAt(fs, k);
    }
    if Listed(fs, n) {
      var k :| 0 <= k < |fs| && fs[k].list == n;
      ListsAt(fs, k);
    }
  }

  lemma ListsCons(f: Found, d: seq<Found>)
    ensures Lists([f] + d) == [f.list] + Lists(d)
  {
    assert ([f] + d)[1..] == d;
  }

  lemma {:induction false} ListsConcat(a: seq<Found>, b: seq<Found>)
    ensures Lists(a + b) == Lists(a) + Lists(b)
  {
    if a != [] {
      ListsConcat(a[1..], b);
      assert (a + b)[1..] == a[1..] + b;
    } else {
      assert a + b == b;
    }
  }

  /** The sub-menus found below `menu`, in the order the walk finds them. */
  function Discover(t: Tree, menu: nat, depth: nat): seq<Found>
    requires WellFormed(t) && menu < |t|
    decreases |t| - menu, 1
  {
    DiscoverItems(t, menu, |ChildItems(t, menu)|, depth)
  }

  /** The sub-menus found while scanning the first `n` child items of `menu`. */
  function DiscoverItems(t: Tree, menu: nat, n: nat, depth: nat): seq<Found>
    requires WellFormed(t) && menu < |t| && n <= |ChildItems(t, menu)|
    decreases |t| - menu, 0, n
  {
    if n == 0 then []
    else DiscoverItems(t, menu, n - 1, depth) + Branch(t, ChildItems(t, menu)[n - 1], n - 1, depth)
  }

  /** What scanning one item yields: nothing for a leaf item, otherwise its list and everything below. */
  function Branch(t: Tree, item: nat, index: nat, depth: nat): seq<Found>
    requires WellFormed(t) && item < |t|
    decreases |t| - item, 2
  {
    match FirstList(t, item)
    case None => []
    case Some(u) => [Found(u, item, depth, index)] + Discover(t, u, depth + 1)
  }

  // ---------------------------------------------------------------------
  // Everything found lies inside the list (or item) it was found under, and
  // each found list lies inside the item that owns it.

  lemma {:induction false} BranchWithin(t: Tree, item: nat, index: nat, depth: nat)
    requires WellFormed(t) && item < |t|
    ensures forall f | f in Branch(t, item, index, depth) ::
              Contains(t, item, f.item) && Desc(t, item, f.list) && Desc(t, f.item, f.list)
    decreases |t| - item, 2
  {
    match FirstList(t, item)
    case None =>
    case Some(u) =>
      DiscoverWithin(t, u, depth + 1);
      forall f | f in Discover(t, u, depth + 1)
        ensures Contains(t, item, f.item) && Desc(t, item, f.list)
      {
        DescTrans(t, item, u, f.item);
        DescTrans(t, item, u, f.list);
      }
  }

  lemma {:induction false} DiscoverWithin(t: Tree, menu: nat, depth: nat)
    requires WellFormed(t) && menu < |t|
    ensures forall f | f in Discover(t, menu, depth) ::
              Desc(t, menu, f.item) && Desc(t, menu, f.list) && Desc(t, f.item, f.list)
    decreases |t| - menu, 1
  {
    DiscoverItemsWithin(t, menu, |ChildItems(t, menu)|, depth);
  }

  lemma {:induction false} DiscoverItemsWithin(t: Tree, menu: nat, n: nat, depth: nat)
    requires WellFormed(t) && menu < |t| && n <= |ChildItems(t, menu)|
    ensures forall f | f in DiscoverItems(t, menu, n, depth) ::
              Desc(t, menu, f.item) && Desc(t, menu, f.list) && Desc(t, f.item, f.list)
    decreases |t| - menu, 0, n
  {
    if n > 0 {
      var item := ChildItems(t, menu)[n - 1];
      assert menu < item < |t|;
      var p := DiscoverItems(t, menu, n - 1, depth);
      var b := Branch(t, item, n - 1, depth);
      assert DiscoverItems(t, menu, n, depth) == p + b;
      DiscoverItemsWithin(t, menu, n - 1, depth);
      BranchWithin(t, item, n - 1, depth);
      ChildIsDesc(t, menu, item);
      forall f | f in b ensures Desc(t, menu, f.item) && Desc(t, menu, f.list) {
        if f.item != item { DescTrans(t, menu, item, f.item); }
        DescTrans(t, menu, item, f.list);
      }
    }
  }

  /** What the first `n` child items yield lies outside every later child item. */
  lemma {:induction false} DiscoverItemsOutside(t: Tree, menu: nat, n: nat, depth: nat, i: nat)
    requires WellFormed(t) && menu < |t| && n <= i < |ChildItems(t, menu)|
    ensures forall f | f in DiscoverItems(t, menu, n, depth) ::
              !Contains(t, ChildItems(t, menu)[i], f.item) && !Contains(t, ChildItems(t, menu)[i], f.list)
    decreases n
  {
    if n > 0 {
      var items := ChildItems(t, menu);
      var item := items[n - 1];
      assert menu < item < |t| && item != items[i];
      var p := DiscoverItems(t, menu, n - 1, depth);
      var b := Branch(t, item, n - 1, depth);
      assert DiscoverItems(t, menu, n, depth) == p + b;
      DiscoverItemsOutside(t, menu, n - 1, depth, i);
      BranchWithin(t, item, n - 1, depth);
      forall f | f in b ensures !Contains(t, items[i], f.item) && !Contains(t, items[i], f.list) {
        SiblingsDisjoint(t, menu, item, items[i], f.item);
        SiblingsDisjoint(t, menu, item, items[i], f.list);
      }
    }
  }

  /** Every discovery is a list nested below `menu`, after the item that owns it in document order. */
  lemma DiscoverBounds(t: Tree, menu: nat, depth: nat)
    requires WellFormed(t) && menu < |t|
    ensures forall k | 0 <= k < |Discover(t, menu, depth)| ::
              menu < Discover(t, menu, depth)[k].item < Discover(t, menu, depth)[k].list < |t|
  {
    var fs := Discover(t, menu, depth);
    DiscoverWithin(t, menu, depth);
    forall k | 0 <= k < |fs| ensures menu < fs[k].item < fs[k].list < |t| {
      assert fs[k] in fs;
      DescBelow(t, menu, fs[k].item);
      DescBelow(t, fs[k].item, fs[k].list);
    }
  }

  /** Every item and list recorded is a node of the tree. */
  predicate Bounded(t: Tree, fs: seq<Found>) {
    forall k | 0 <= k < |fs| :: fs[k].item < |t| && fs[k].list < |t|
  }

  /** The items scanned so far only yield nodes below `menu`. */
  lemma DiscoverItemsBounded(t: Tree, menu: nat, n: nat, depth: nat)
    requires WellFormed(t) && menu < |t| && n <= |ChildItems(t, menu)|
    ensures Bounded(t, DiscoverItems(t, menu, n, depth))
  {
    var fs := DiscoverItems(t, menu, n, depth);
    DiscoverItemsWithin(t, menu, n, depth);
    forall k | 0 <= k < |fs| ensures fs[k].item < |t| && fs[k].list < |t| {
      assert fs[k] in fs;
      DescBelow(t, menu, fs[k].item);
      DescBelow(t, menu, fs[k].list);
    }
  }

  // ---------------------------------------------------------------------
  // No list and no item is found twice.

  predicate NoRepeats(fs: seq<Found>) {
    forall i, j | 0 <= i < j < |fs| :: fs[i].list != fs[j].list && fs[i].item != fs[j].item
  }

  lemma {:induction false} BranchNoRepeats(t: Tree, item: nat, index: nat, depth: nat)
    requires WellFormed(t) && item < |t|
    ensures NoRepeats(Branch(t, item, index, depth))
    decreases |t| - item, 2
  {
    match FirstList(t, item)
    case None =>
    case Some(u) =>
      var d := Discover(t, u, depth + 1);
      DiscoverNoRepeats(t, u, depth + 1);
      DiscoverBounds(t, u, depth + 1);
      var r := [Found(u, item, depth, index)] + d;
      forall i, j | 0 <= i < j < |r| ensures r[i].list != r[j].list && r[i].item != r[j].item {
        if i > 0 {
          assert r[i] == d[i - 1] && r[j] == d[j - 1];
        } else {
          assert r[j] == d[j - 1];
          assert u < r[j].item;
        }
      }
  }

  lemma {:induction false} DiscoverNoRepeats(t: Tree, menu: nat, depth: nat)
    requires WellFormed(t) && menu < |t|
    ensures NoRepeats(Discover(t, menu, depth))
    decreases |t| - menu, 1
  {
    DiscoverItemsNoRepeats(t, menu, |ChildItems(t, menu)|, depth);
  }

  lemma {:induction false} DiscoverItemsNoRepeats(t: Tree, menu: nat, n: nat, depth: nat)
    requires WellFormed(t) && menu < |t| && n <= |ChildItems(t, menu)|
    ensures NoRepeats(DiscoverItems(t, menu, n, depth))
    decreases |t| - menu, 0, n
  {
    if n > 0 {
      var item := ChildItems(t, menu)[n - 1];
      assert menu < item < |t|;
      var p := DiscoverItems(t, menu, n - 1, depth);
      var b := Branch(t, item, n - 1, depth);
      assert DiscoverItems(t, menu, n, depth) == p + b;
      DiscoverItemsNoRepeats(t, menu, n - 1, depth);
      BranchNoRepeats(t, item, n - 1, depth);
      DiscoverItemsOutside(t, menu, n - 1, depth, n - 1);
      BranchWithin(t, item, n - 1, depth);
      NoRepeatsConcat(p, b);
    }
  }

  lemma NoRepeatsConcat(p: seq<Found>, b: seq<Found>)
    requires NoRepeats(p) && NoRepeats(b)
    requires forall f, g | f in p && g in b :: f.list != g.list && f.item != g.item
    ensures NoRepeats(p + b)
  {
    var r := p + b;
    forall i, j | 0 <= i < j < |r| ensures r[i].list != r[j].list && r[i].item != r[j].item {
      if j < |p| {
        assert r[i] == p[i] && r[j] == p[j];
      } else if i >= |p| {
        assert r[i] == b[i - |p|] && r[j] == b[j - |p|];
      } else {
        assert r[i] == p[i] && r[j] == b[j - |p|];
        assert p[i] in p && b[j - |p|] in b;
      }
    }
  }

  // ---------------------------------------------------------------------
  // No list found earlier lies inside an item scanned later.

  predicate EarlierOutside(t: Tree, fs: seq<Found>) {
    forall i, j | 0 <= i < j < |fs| :: !Contains(t, fs[j].item, fs[i].list)
  }

  lemma EarlierOutsideConcat(t: Tree, p: seq<Found>, b: seq<Found>)
    requires EarlierOutside(t, p) && EarlierOutside(t, b)
    requires forall f, g | f in p && g in b :: !Contains(t, g.item, f.list)
    ensures EarlierOutside(t, p + b)
  {
    var r := p + b;
    forall i, j | 0 <= i < j < |r| ensures !Contains(t, r[j].item, r[i].list) {
      if j < |p| {
        assert r[i] == p[i] && r[j] == p[j];
      } else if i >= |p| {
        assert r[i] == b[i - |p|] && r[j] == b[j - |p|];
      } else {
        assert r[i] == p[i] && r[j] == b[j - |p|];
        assert p[i] in p && b[j - |p|] in b;
      }
    }
  }

  lemma {:induction false} BranchEarlierOutside(t: Tree, item: nat, index: nat, depth: nat)
    requires WellFormed(t) && item < |t|
    ensures EarlierOutside(t, Branch(t, item, index, depth))
    decreases |t| - item, 2
  {
    match FirstList(t, item)
    case None =>
    case Some(u) =>
      var d := Discover(t, u, depth + 1);
      DiscoverEarlierOutside(t, u, depth + 1);
      DiscoverWithin(t, u, depth + 1);
      var r := [Found(u, item, depth, index)] + d;
      forall i, j | 0 <= i < j < |r| ensures !Contains(t, r[j].item, r[i].list) {
        assert r[j] == d[j - 1] && d[j - 1] in d;
        if i > 0 {
          assert r[i] == d[i - 1];
        } else {
          DescOrdered(t, u, r[j].item);
          DescOrdered(t, r[j].item, u);
        }
      }
  }

  lemma {:induction false} DiscoverEarlierOutside(t: Tree, menu: nat, depth: nat)
    requires WellFormed(t) && menu < |t|
    ensures EarlierOutside(t, Discover(t, menu, depth))
    decreases |t| - menu, 1
  {
    DiscoverItemsEarlierOutside(t, menu, |ChildItems(t, menu)|, depth);
  }

  lemma {:induction false} DiscoverItemsEarlierOutside(t: Tree, menu: nat, n: nat, depth: nat)
    requires WellFormed(t) && menu < |t| && n <= |ChildItems(t, menu)|
    ensures EarlierOutside(t, DiscoverItems(t, menu, n, depth))
    decreases |t| - menu, 0, n
  {
    if n > 0 {
      var item := ChildItems(t, menu)[n - 1];
      assert menu < item < |t|;
      var p := DiscoverItems(t, menu, n - 1, depth);
      var b := Branch(t, item, n - 1, depth);
      assert DiscoverItems(t, menu, n, depth) == p + b;
      DiscoverItemsEarlierOutside(t, menu, n - 1, depth);
      BranchEarlierOutside(t, item, n - 1, depth);
      DiscoverItemsOutside(t, menu, n - 1, depth, n - 1);
      BranchWithin(t, item, n - 1, depth);
      forall f, g | f in p && g in b ensures !Contains(t, g.item, f.list) {
        ContainsTrans(t, item, g.item, f.list);
      }
      EarlierOutsideConcat(t, p, b);
    }
  }

  // ---------------------------------------------------------------------
  // Each found list is followed at once by everything found inside it
  // (pre-order): it is recorded before its own items are scanned.

  /** `inner` comes right after `fs[k]`. */
  predicate Follows(fs: seq<Found>, k: nat, inner: seq<Found>) {
    k < |fs| && k + 1 + |inner| <= |fs| && forall i | 0 <= i < |inner| :: fs[k + 1 + i] == inner[i]
  }

  /** The discoveries inside `fs[k].list` come right after `fs[k]`. */
  predicate NestedAt(t: Tree, fs: seq<Found>, k: nat)
    requires WellFormed(t) && k < |fs|
  {
    fs[k].list < |t| && Follows(fs, k, Discover(t, fs[k].list, fs[k].depth + 1))
  }

  lemma FollowsLeft(p: seq<Found>, b: seq<Found>, k: nat, inner: seq<Found>)
    requires k < |p| && Follows(p, k, inner)
    ensures (p + b)[k] == p[k] && Follows(p + b, k, inner)
  {
  }

  lemma FollowsRight(p: seq<Found>, b: seq<Found>, k: nat, inner: seq<Found>)
    requires k < |b| && Follows(b, k, inner)
    ensures (p + b)[|p| + k] == b[k] && Follows(p + b, |p| + k, inner)
  {
  }

  lemma {:induction false} BranchNested(t: Tree, item: nat, index: nat, depth: nat, k: nat)
    requires WellFormed(t) && item < |t|
    requires k < |Branch(t, item, index, depth)|
    ensures NestedAt(t, Branch(t, item, index, depth), k)
    decreases |t| - item, 2, k, 0
  {
    var r := Branch(t, item, index, depth);
    var u := FirstList(t, item).value;
    var d := Discover(t, u, depth + 1);
    var head := [Found(u, item, depth, index)];
    assert r == head + d;
    if k == 0 {
      assert r[1..] == d;
    } else {
      assert k - 1 < |d|;
      DiscoverNested(t, u, depth + 1, k - 1);
      FollowsRight(head, d, k - 1, Discover(t, d[k - 1].list, d[k - 1].depth + 1));
      assert |head| + (k - 1) == k;
    }
  }

  lemma {:induction false} DiscoverNested(t: Tree, menu: nat, depth: nat, k: nat)
    requires WellFormed(t) && menu < |t|
    requires k < |Discover(t, menu, depth)|
    ensures NestedAt(t, Discover(t, menu, depth), k)
    decreases |t| - menu, 1, k, 0
  {
    assert Discover(t, menu, depth) == DiscoverItems(t, menu, |ChildItems(t, menu)|, depth);
    DiscoverItemsNested(t, menu, |ChildItems(t, menu)|, depth, k);
  }

  lemma {:induction false} DiscoverItemsNested(t: Tree, menu: nat, n: nat, depth: nat, k: nat)
    requires WellFormed(t) && menu < |t| && n <= |ChildItems(t, menu)|
    requires k < |DiscoverItems(t, menu, n, depth)|
    ensures NestedAt(t, DiscoverItems(t, menu, n, depth), k)
    decreases |t| - menu, 0, n, 1
  {
    var item := ChildItems(t, menu)[n - 1];
    assert menu < item < |t|;
    var p := DiscoverItems(t, menu, n - 1, depth);
    assert DiscoverItems(t, menu, n, depth) == p + Branch(t, item, n - 1, depth);
    if k < |p| {
      PrefixNested(t, menu, n, depth, k);
    } else {
      BranchNestedAfter(t, item, n - 1, depth, DiscoverItems(t, menu, n, depth), p, k);
    }
  }

  /** The discoveries of the first `n - 1` items keep their nesting once item `n - 1` is scanned. */
  lemma {:induction false} PrefixNested(t: Tree, menu: nat, n: nat, depth: nat, k: nat)
    requires WellFormed(t) && menu < |t| && 0 < n <= |ChildItems(t, menu)|
    requires k < |DiscoverItems(t, menu, n - 1, depth)|
    ensures NestedAt(t, DiscoverItems(t, menu, n, depth), k)
    decreases |t| - menu, 0, n, 0
  {
    var p := DiscoverItems(t, menu, n - 1, depth);
    var b := Branch(t, ChildItems(t, menu)[n - 1], n - 1, depth);
    DiscoverItemsNested(t, menu, n - 1, depth, k);
    NestedLeft(t, DiscoverItems(t, menu, n, depth), p, b, k);
  }

  /** Appending more discoveries keeps an earlier one's nesting. */
  lemma NestedLeft(t: Tree, fs: seq<Found>, p: seq<Found>, b: seq<Found>, k: nat)
    requires WellFormed(t) && fs == p + b && k < |p| && NestedAt(t, p, k)
    ensures NestedAt(t, fs, k)
  {
    FollowsLeft(p, b, k, Discover(t, p[k].list, p[k].depth + 1));
  }

  /** `BranchNested` shifted behind the discoveries `p` made before the item. */
  lemma {:induction false} BranchNestedAfter(t: Tree, item: nat, index: nat, depth: nat, fs: seq<Found>, p: seq<Found>, k: nat)
    requires WellFormed(t) && item < |t|
    requires fs == p + Branch(t, item, index, depth) && |p| <= k < |fs|
    ensures NestedAt(t, fs, k)
    decreases |t| - item, 3, 0, 0
  {
    var b := Branch(t, item, index, depth);
    var m := k - |p|;
    BranchNested(t, item, index, depth, m);
    FollowsRight(p, b, m, Discover(t, b[m].list, b[m].depth + 1));
    assert |p| + m == k;
  }

  // ---------------------------------------------------------------------
  // Every child item that owns a nested list is found, with the scanning
  // depth and its own position; leaf items are not.

  lemma {:induction false} DiscoverItemsCovers(t: Tree, menu: nat, n: nat, depth: nat, i: nat)
    requires WellFormed(t) && menu < |t| && i < n <= |ChildItems(t, menu)|
    ensures var item := ChildItems(t, menu)[i];
            FirstList(t, item).Some? ==>
              Found(FirstList(t, item).value, item, depth, i) in DiscoverItems(t, menu, n, depth)
    decreases n
  {
    if i < n - 1 {
      DiscoverItemsCovers(t, menu, n - 1, depth, i);
    }
  }

  /** Found lists own exactly the child items that have a nested list. */
  lemma DiscoverCovers(t: Tree, menu: nat, depth: nat)
    requires WellFormed(t) && menu < |t|
    ensures forall i | 0 <= i < |ChildItems(t, menu)| && FirstList(t, ChildItems(t, menu)[i]).Some? ::
              Found(FirstList(t, ChildItems(t, menu)[i]).value, ChildItems(t, menu)[i], depth, i)
                in Discover(t, menu, depth)
  {
    var items := ChildItems(t, menu);
    forall i | 0 <= i < |items| && FirstList(t, items[i]).Some?
      ensures Found(FirstList(t, items[i]).value, items[i], depth, i) in Discover(t, menu, depth)
    {
      DiscoverItemsCovers(t, menu, |items|, depth, i);
    }
  }

  // ---------------------------------------------------------------------
  // Depth and position: a found list either sits directly under `menu` at
  // the scanning depth, or under an earlier found list, one level deeper.

  predicate Placed(t: Tree, menu: nat, depth: nat, fs: seq<Found>, k: nat)
    requires WellFormed(t) && menu < |t| && k < |fs|
  {
    && fs[k].item < |t|
    && (|| (&& t[fs[k].item].parent == Some(menu)
            && fs[k].depth == depth
            && fs[k].index < |ChildItems(t, menu)| && ChildItems(t, menu)[fs[k].index] == fs[k].item)
        || (exists j | 0 <= j < k ::
              && fs[j].list < |t|
              && t[fs[k].item].parent == Some(fs[j].list)
              && fs[k].depth == fs[j].depth + 1
              && fs[k].index < |ChildItems(t, fs[j].list)| && ChildItems(t, fs[j].list)[fs[k].index] == fs[k].item))
  }

  lemma PlacedLeft(t: Tree, menu: nat, depth: nat, p: seq<Found>, b: seq<Found>, k: nat)
    requires WellFormed(t) && menu < |t| && k < |p| && Placed(t, menu, depth, p, k)
    ensures Placed(t, menu, depth, p + b, k)
  {
    var r := p + b;
    assert r[k] == p[k];
    if !(t[p[k].item].parent == Some(menu) && p[k].depth == depth
         && p[k].index < |ChildItems(t, menu)| && ChildItems(t, menu)[p[k].index] == p[k].item) {
      var j :| 0 <= j < k && p[j].list < |t| && t[p[k].item].parent == Some(p[j].list) && p[k].depth == p[j].depth + 1
               && p[k].index < |ChildItems(t, p[j].list)| && ChildItems(t, p[j].list)[p[k].index] == p[k].item;
      assert r[j] == p[j];
    }
  }

  /** A discovery placed under the sub-menu `f` is placed under `menu` once `f` is. */
  lemma PlacedInner(t: Tree, menu: nat, depth: nat, p: seq<Found>, f: Found, d: seq<Found>, m: nat)
    requires WellFormed(t) && menu < |t| && f.list < |t| && f.depth == depth
    requires m < |d| && Placed(t, f.list, depth + 1, d, m)
    ensures Placed(t, menu, depth, p + ([f] + d), |p| + 1 + m)
  {
    var r := p + ([f] + d);
    var k := |p| + 1 + m;
    assert r[k] == d[m] && r[|p|] == f;
    if !(t[d[m].item].parent == Some(f.list) && d[m].depth == depth + 1
         && d[m].index < |ChildItems(t, f.list)| && ChildItems(t, f.list)[d[m].index] == d[m].item) {
      var j :| 0 <= j < m && d[j].list < |t| && t[d[m].item].parent == Some(d[j].list) && d[m].depth == d[j].depth + 1
               && d[m].index < |ChildItems(t, d[j].list)| && ChildItems(t, d[j].list)[d[m].index] == d[m].item;
      assert r[|p| + 1 + j] == d[j];
    }
  }

  lemma {:induction false} DiscoverPlaced(t: Tree, menu: nat, depth: nat)
    requires WellFormed(t) && menu < |t|
    ensures forall k | 0 <= k < |Discover(t, menu, depth)| :: Placed(t, menu, depth, Discover(t, menu, depth), k)
    decreases |t| - menu, 1
  {
    assert Discover(t, menu, depth) == DiscoverItems(t, menu, |ChildItems(t, menu)|, depth);
    DiscoverItemsPlaced(t, menu, |ChildItems(t, menu)|, depth);
  }

  lemma {:induction false} DiscoverItemsPlaced(t: Tree, menu: nat, n: nat, depth: nat)
    requires WellFormed(t) && menu < |t| && n <= |ChildItems(t, menu)|
    ensures forall k | 0 <= k < |DiscoverItems(t, menu, n, depth)| ::
              Placed(t, menu, depth, DiscoverItems(t, menu, n, depth), k)
    decreases |t| - menu, 0, n
  {
    if n > 0 {
      var item := ChildItems(t, menu)[n - 1];
      assert menu < item < |t|;
      var p := DiscoverItems(t, menu, n - 1, depth);
      var b := Branch(t, item, n - 1, depth);
      assert DiscoverItems(t, menu, n, depth) == p + b;
      DiscoverItemsPlaced(t, menu, n - 1, depth);
      forall k | 0 <= k < |p + b| ensures Placed(t, menu, depth, p + b, k) {
        if k < |p| {
          PlacedLeft(t, menu, depth, p, b, k);
        } else {
          BranchPlacedAfter(t, menu, item, n - 1, depth, p, k);
        }
      }
    }
  }

  /** The discoveries of one child item, placed behind those of the items before it. */
  lemma {:induction false} BranchPlacedAfter(t: Tree, menu: nat, item: nat, index: nat, depth: nat, p: seq<Found>, k: nat)
    requires WellFormed(t) && menu < |t|
    requires index < |ChildItems(t, menu)| && ChildItems(t, menu)[index] == item
    requires |p| <= k < |p| + |Branch(t, item, index, depth)|
    ensures Placed(t, menu, depth, p + Branch(t, item, index, depth), k)
    decreases |t| - item, 3
  {
    var u := FirstList(t, item).value;
    var f := Found(u, item, depth, index);
    var d := Discover(t, u, depth + 1);
    assert Branch(t, item, index, depth) == [f] + d;
    if k == |p| {
      assert (p + ([f] + d))[k] == f;
    } else {
      DiscoverPlaced(t, u, depth + 1);
      PlacedInner(t, menu, depth, p, f, d, k - |p| - 1);
      assert |p| + 1 + (k - |p| - 1) == k;
    }
  }
}
