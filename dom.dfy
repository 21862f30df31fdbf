/**
 * The part of the document the menu works on, as an arena: node `i` of a
 * `Tree` is an element, `parent` and `children` are indices. The queries the
 * component makes of the document are defined here once:
 *   - `ChildItems(t, x)`   : `x.querySelectorAll(':scope > li')`
 *   - `PreOrder(t, x)`     : the descendants of `x` in document order
 *   - `FirstList(t, x)`    : `x.querySelector('ul')`
 *   - `Contains(t, a, y)`  : `a.contains(y)`
 * Every element's initial markup (class list, `href`, `hidden` and `id`
 * attributes, whether it matches the menu selector) is part of its node.
 */
module Dom {
  import opened Wrappers

  datatype Tag = UL | LI | Anchor | OtherTag

  datatype Node = Node(
    tag: Tag,
    parent: Option<nat>,
    children: seq<nat>,
    classes: set<string>,
    href: Option<string>,
    hidden: bool,
    id: string,
    matchesMenu: bool)

  type Tree = seq<Node>

  predicate Distinct<T(==)>(s: seq<T>) {
    forall i, j | 0 <= i < j < |s| :: s[i] != s[j]
  }

  /** Node `i` agrees with its children and lies after its parent. */
  predicate NodeOk(t: Tree, i: nat)
    requires i < |t|
  {
    && (t[i].parent.Some? ==> t[i].parent.value < i)
    && (forall k | 0 <= k < |t[i].children| ::
          i < t[i].children[k] < |t| && t[t[i].children[k]].parent == Some(i))
    && Distinct(t[i].children)
  }

  /** Node `c` is among the children of its parent: the converse of `NodeOk`'s child links. */
  predicate InParentChildren(t: Tree, c: nat)
    requires c < |t|
  {
    t[c].parent.Some? && t[c].parent.value < |t| ==> c in t[t[c].parent.value].children
  }

  /** Parent and child links agree in both directions, and parents come first. */
  predicate WellFormed(t: Tree) {
    && (forall i | 0 <= i < |t| :: NodeOk(t, i))
    && (forall c | 0 <= c < |t| :: InParentChildren(t, c))
  }

  /** `a` is a proper ancestor of `y`: walking parent links up from `y` reaches `a`. */
  predicate Desc(t: Tree, a: nat, y: nat)
    decreases y
  {
    && y < |t|
    && t[y].parent.Some?
    && t[y].parent.value < y
    && (t[y].parent.value == a || Desc(t, a, t[y].parent.value))
  }

  /** `a.contains(y)`: `y` is `a` itself or one of its descendants. */
  predicate Contains(t: Tree, a: nat, y: nat) {
    a == y || Desc(t, a, y)
  }

  lemma {:induction false} DescBelow(t: Tree, a: nat, y: nat)
    requires Desc(t, a, y)
    ensures a < y < |t|
    decreases y
  {
    var p := t[y].parent.value;
    if p != a {
      DescBelow(t, a, p);
    }
  }

  /** `Desc` orders its nodes; in particular no node is its own proper ancestor. */
  lemma DescOrdered(t: Tree, a: nat, y: nat)
    ensures Desc(t, a, y) ==> a < y
  {
    if Desc(t, a, y) {
      DescBelow(t, a, y);
    }
  }

  lemma {:induction false} DescTrans(t: Tree, a: nat, b: nat, y: nat)
    requires Desc(t, a, b) && Desc(t, b, y)
    ensures Desc(t, a, y)
    decreases y
  {
    var p := t[y].parent.value;
    if p != b {
      DescTrans(t, a, b, p);
    }
  }

  lemma ContainsTrans(t: Tree, a: nat, b: nat, y: nat)
    ensures Contains(t, a, b) && Contains(t, b, y) ==> Contains(t, a, y)
  {
    if Desc(t, a, b) && Desc(t, b, y) {
      DescTrans(t, a, b, y);
    }
  }

  lemma ChildIsDesc(t: Tree, x: nat, c: nat)
    requires WellFormed(t) && x < |t| && c in t[x].children
    ensures Desc(t, x, c)
  {
    assert NodeOk(t, x);
  }

  /** The proper ancestors of one node form a chain. */
  lemma {:induction false} AncestorChain(t: Tree, a: nat, b: nat, y: nat)
    requires Desc(t, a, y) && Desc(t, b, y)
    ensures a == b || Desc(t, a, b) || Desc(t, b, a)
    decreases y
  {
    var p := t[y].parent.value;
    if p == a && p == b {
    } else if p == a {
      assert Desc(t, b, a);
    } else if p == b {
      assert Desc(t, a, b);
    } else {
      AncestorChain(t, a, b, p);
    }
  }

  /** Two different children of one node have disjoint subtrees. */
  lemma SiblingsDisjoint(t: Tree, x: nat, c1: nat, c2: nat, y: nat)
    requires WellFormed(t) && x < |t|
    requires c1 in t[x].children && c2 in t[x].children && c1 != c2
    requires Contains(t, c1, y)
    ensures !Contains(t, c2, y)
  {
    assert NodeOk(t, x);
    assert t[c1].parent == Some(x) && t[c2].parent == Some(x);
    if Contains(t, c2, y) {
      if c1 == y {
        SiblingUnder(t, x, c2, c1);
      } else if c2 == y {
        SiblingUnder(t, x, c1, c2);
      } else {
        AncestorChain(t, c1, c2, y);
        if Desc(t, c1, c2) {
          SiblingUnder(t, x, c1, c2);
        } else {
          SiblingUnder(t, x, c2, c1);
        }
      }
    }
  }

  /** A child of `x` is never a proper ancestor of another child of `x`. */
  lemma SiblingUnder(t: Tree, x: nat, a: nat, b: nat)
    requires WellFormed(t) && x < |t|
    requires a in t[x].children && b < |t| && t[b].parent == Some(x)
    ensures !Desc(t, a, b)
  {
    assert NodeOk(t, x);
    if Desc(t, a, b) {
      assert t[b].parent.value == x;
      if a != x {
        assert Desc(t, a, x);
        DescBelow(t, a, x);
      }
    }
  }

  /** The children of a node that are list items, in order. */
  function ItemsAmong(t: Tree, cs: seq<nat>): (r: seq<nat>)
    ensures forall k | 0 <= k < |r| :: r[k] in cs && r[k] < |t| && t[r[k]].tag == LI
    ensures forall c | c in cs && c < |t| && t[c].tag == LI :: c in r
    ensures Distinct(cs) ==> Distinct(r)
  {
    if cs == [] then []
    else
      var rest := ItemsAmong(t, cs[1..]);
      assert forall c | c in cs[1..] :: c in cs;
      if cs[0] < |t| && t[cs[0]].tag == LI then [cs[0]] + rest else rest
  }

  /** `x.querySelectorAll(':scope > li')`: the child items of `x` in document order. */
  function ChildItems(t: Tree, x: nat): (r: seq<nat>)
    requires WellFormed(t) && x < |t|
    ensures Distinct(r)
    ensures forall k | 0 <= k < |r| ::
              && r[k] in t[x].children && x < r[k] < |t|
              && t[r[k]].parent == Some(x) && t[r[k]].tag == LI
    ensures forall c | c in t[x].children && t[c].tag == LI :: c in r
  {
    assert NodeOk(t, x);
    ItemsAmong(t, t[x].children)
  }

  /** The proper descendants of `x` in document (pre-)order. */
  function PreOrder(t: Tree, x: nat): (r: seq<nat>)
    requires WellFormed(t) && x < |t|
    ensures forall k | 0 <= k < |r| :: x < r[k] < |t|
    decreases |t| - x, 1
  {
    assert NodeOk(t, x);
    PreOrderAmong(t, x, t[x].children)
  }

  function PreOrderAmong(t: Tree, x: nat, cs: seq<nat>): (r: seq<nat>)
    requires WellFormed(t) && x < |t|
    requires forall k | 0 <= k < |cs| :: x < cs[k] < |t|
    ensures forall k | 0 <= k < |r| :: x < r[k] < |t|
    decreases |t| - x, 0, |cs|
  {
    if cs == [] then []
    else [cs[0]] + PreOrder(t, cs[0]) + PreOrderAmong(t, x, cs[1..])
  }

  /** Everything `PreOrder` lists is a proper descendant. */
  lemma {:induction false} PreOrderDesc(t: Tree, x: nat)
    requires WellFormed(t) && x < |t|
    ensures forall y | y in PreOrder(t, x) :: Desc(t, x, y)
    decreases |t| - x, 1
  {
    assert NodeOk(t, x);
    PreOrderAmongDesc(t, x, t[x].children);
  }

  lemma {:induction false} PreOrderAmongDesc(t: Tree, x: nat, cs: seq<nat>)
    requires WellFormed(t) && x < |t|
    requires forall k | 0 <= k < |cs| :: x < cs[k] < |t| && cs[k] in t[x].children
    ensures forall y | y in PreOrderAmong(t, x, cs) :: Desc(t, x, y)
    decreases |t| - x, 0, |cs|
  {
    if cs != [] {
      var c := cs[0];
      ChildIsDesc(t, x, c);
      PreOrderDesc(t, c);
      forall y | y in PreOrder(t, c) ensures Desc(t, x, y) {
        DescTrans(t, x, c, y);
      }
      PreOrderAmongDesc(t, x, cs[1..]);
    }
  }

  /** A child listed in `cs` is in the pre-order walk over `cs`, and so is everything below it. */
  lemma {:induction false} AmongContains(t: Tree, x: nat, cs: seq<nat>, c: nat)
    requires WellFormed(t) && x < |t|
    requires forall k | 0 <= k < |cs| :: x < cs[k] < |t|
    requires c in cs && c < |t|
    ensures c in PreOrderAmong(t, x, cs)
    ensures forall z | z in PreOrder(t, c) :: z in PreOrderAmong(t, x, cs)
    decreases |cs|
  {
    if cs[0] != c {
      AmongContains(t, x, cs[1..], c);
    }
  }

  /** What `PreOrder` lists below a listed node is listed too. */
  lemma {:induction false} PreOrderNested(t: Tree, x: nat, p: nat)
    requires WellFormed(t) && x < |t| && p < |t| && p in PreOrder(t, x)
    ensures forall z | z in PreOrder(t, p) :: z in PreOrder(t, x)
    decreases |t| - x, 1
  {
    assert NodeOk(t, x);
    AmongNested(t, x, t[x].children, p);
  }

  lemma {:induction false} AmongNested(t: Tree, x: nat, cs: seq<nat>, p: nat)
    requires WellFormed(t) && x < |t| && p < |t|
    requires forall k | 0 <= k < |cs| :: x < cs[k] < |t|
    requires p in PreOrderAmong(t, x, cs)
    ensures forall z | z in PreOrder(t, p) :: z in PreOrderAmong(t, x, cs)
    decreases |t| - x, 0, |cs|
  {
    var c := cs[0];
    if p != c {
      if p in PreOrder(t, c) {
        PreOrderNested(t, c, p);
      } else {
        AmongNested(t, x, cs[1..], p);
      }
    }
  }

  lemma {:induction false} DescInPreOrder(t: Tree, x: nat, y: nat)
    requires WellFormed(t) && x < |t| && Desc(t, x, y)
    ensures y in PreOrder(t, x)
    decreases y
  {
    var p := t[y].parent.value;
    assert InParentChildren(t, y) && NodeOk(t, p);
    AmongContains(t, p, t[p].children, y);
    if p != x {
      DescInPreOrder(t, x, p);
      PreOrderNested(t, x, p);
    }
  }

  /** `querySelectorAll` on `x` lists exactly the proper descendants of `x`, the ones `contains` finds. */
  lemma PreOrderExactly(t: Tree, x: nat)
    requires WellFormed(t) && x < |t|
    ensures forall y :: y in PreOrder(t, x) <==> Desc(t, x, y)
  {
    PreOrderDesc(t, x);
    forall y | Desc(t, x, y) ensures y in PreOrder(t, x) {
      DescInPreOrder(t, x, y);
    }
  }

  /** The first element of `s` with tag `tag` (document-order `querySelector`). */
  function FirstWithTag(t: Tree, s: seq<nat>, tag: Tag): (r: Option<nat>)
    ensures r.Some? ==> r.value in s && r.value < |t| && t[r.value].tag == tag
  {
    if s == [] then None
    else if s[0] < |t| && t[s[0]].tag == tag then Some(s[0])
    else FirstWithTag(t, s[1..], tag)
  }

  /** `FirstWithTag` finds nothing only when no element of `s` has the tag, and otherwise the first that has it. */
  lemma {:induction false} FirstWithTagIsFirst(t: Tree, s: seq<nat>, tag: Tag)
    ensures FirstWithTag(t, s, tag).None? ==> forall k | 0 <= k < |s| :: !(s[k] < |t| && t[s[k]].tag == tag)
    ensures FirstWithTag(t, s, tag).Some? ==>
              exists k | 0 <= k < |s| :: s[k] == FirstWithTag(t, s, tag).value
                && forall j | 0 <= j < k :: !(s[j] < |t| && t[s[j]].tag == tag)
  {
    if s == [] {
    } else if s[0] < |t| && t[s[0]].tag == tag {
      assert s[0] == FirstWithTag(t, s, tag).value;
    } else {
      var rest := s[1..];
      FirstWithTagIsFirst(t, rest, tag);
      var r := FirstWithTag(t, rest, tag);
      assert FirstWithTag(t, s, tag) == r;
      if r.Some? {
        var k :| 0 <= k < |rest| && rest[k] == r.value
                 && forall j | 0 <= j < k :: !(rest[j] < |t| && t[rest[j]].tag == tag);
        assert s[k + 1] == rest[k];
        forall j | 0 <= j < k + 1 ensures !(s[j] < |t| && t[s[j]].tag == tag) {
          if j > 0 { assert s[j] == rest[j - 1]; }
        }
      } else {
        forall k | 0 <= k < |s| ensures !(s[k] < |t| && t[s[k]].tag == tag) {
          if k > 0 { assert s[k] == rest[k - 1]; }
        }
      }
    }
  }

  /** `x.querySelector('ul')`: the first list among the descendants of `x`. */
  function FirstList(t: Tree, x: nat): (r: Option<nat>)
    requires WellFormed(t) && x < |t|
    ensures r.Some? ==> x < r.value < |t| && t[r.value].tag == UL && Desc(t, x, r.value)
  {
    PreOrderDesc(t, x);
    FirstWithTag(t, PreOrder(t, x), UL)
  }

  /** `querySelector('ul')` yields the first list in document order, or nothing when there is none. */
  lemma FirstListIsFirst(t: Tree, x: nat)
    requires WellFormed(t) && x < |t|
    ensures FirstList(t, x).None? ==> forall k | 0 <= k < |PreOrder(t, x)| :: t[PreOrder(t, x)[k]].tag != UL
    ensures FirstList(t, x).Some? ==>
              exists k | 0 <= k < |PreOrder(t, x)| :: PreOrder(t, x)[k] == FirstList(t, x).value
                && forall j | 0 <= j < k :: t[PreOrder(t, x)[j]].tag != UL
  {
    FirstWithTagIsFirst(t, PreOrder(t, x), UL);
  }
}
