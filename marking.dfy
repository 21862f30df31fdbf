/**
 * Active-path marking, `addClasses` (dist/boringmenu.module.js lines 77-91):
 * every link inside the menu that has an item class and points at the current
 * path gets the active classes, and a walk up its ancestors gives the first
 * child of every enclosing list item the parent classes, unless that child is
 * already active or is not an item. The walk ends at the first element that
 * is not a list item and matches the menu selector.
 */
module Marking {
  import opened Wrappers
  import opened Dom
  import opened Options
  import opened MenuState

  /** `firstElementChild`. */
  function FirstChild(t: Tree, x: nat): (r: Option<nat>)
    requires WellFormed(t) && x < |t|
    ensures r.Some? ==> x < r.value < |t| && t[r.value].parent == Some(x)
  {
    assert NodeOk(t, x);
    if t[x].children == [] then None else Some(t[x].children[0])
  }

  /** `classList.add(...tokens)` on element `i`. */
  function AddTokens(st: DomState, i: nat, tokens: seq<string>): (r: DomState)
    requires i < |st.classes|
    ensures |r.classes| == |st.classes|
    ensures r.hiddenAttr == st.hiddenAttr && r.ids == st.ids && r.depth == st.depth && r.toggles == st.toggles
  {
    st.(classes := st.classes[i := st.classes[i] + TokenSet(tokens)])
  }

  /** Line 87: a first child is marked as a parent when it is an item and not active. */
  predicate NeedsParentMark(o: Options, classes: set<string>) {
    HasAny(classes, o.itemClasses) && !HasAny(classes, o.activeClasses)
  }

  /** Lines 86-87 for the list item `q` the walk has reached. */
  function MarkParent(o: Options, t: Tree, st: DomState, q: nat): (r: DomState)
    requires WellFormed(t) && Fits(t, st) && q < |t|
    ensures Fits(t, r)
    ensures r.hiddenAttr == st.hiddenAttr && r.ids == st.ids && r.depth == st.depth && r.toggles == st.toggles
  {
    match FirstChild(t, q)
    case None => st
    case Some(c) => if NeedsParentMark(o, st.classes[c]) then AddTokens(st, c, o.parentClasses) else st
  }

  /** Line 88: the walk ends at an element that is not a list item and matches the menu selector. */
  predicate Stops(t: Tree, w: nat) {
    w < |t| && t[w].tag != LI && t[w].matchesMenu
  }

  /**
   * Lines 83-89, the marks only: from `x`, move to the parent while there is
   * one; mark at list items, stop at the menu. Past the top element the code
   * throws instead (`Escapes`); the marks made before are the same.
   */
  function Walk(o: Options, t: Tree, st: DomState, x: nat): (r: DomState)
    requires WellFormed(t) && Fits(t, st) && x < |t|
    ensures Fits(t, r)
    ensures r.hiddenAttr == st.hiddenAttr && r.ids == st.ids && r.depth == st.depth && r.toggles == st.toggles
    decreases x
  {
    assert NodeOk(t, x);
    match t[x].parent
    case None => st
    case Some(p) =>
      if t[p].tag == LI then Walk(o, t, MarkParent(o, t, st, p), p)
      else if t[p].matchesMenu then st
      else Walk(o, t, st, p)
  }

  /** The walk from `x` gets as far as the ancestor `q`: nothing strictly between them stops it. */
  ghost predicate Reaches(t: Tree, x: nat, q: nat) {
    forall w: nat | Desc(t, w, x) && Desc(t, q, w) :: !Stops(t, w)
  }

  /** The walk from `x` marks `c`: `c` is the first child of a list item `q` above `x` that the walk reaches, and needs the mark. */
  ghost predicate MarkedBy(o: Options, t: Tree, st: DomState, x: nat, c: nat)
    requires Fits(t, st)
  {
    && c < |t| && t[c].parent.Some?
    && var q := t[c].parent.value;
    && q < |t| && t[q].tag == LI && t[q].children != [] && t[q].children[0] == c
    && Desc(t, q, x) && Reaches(t, x, q)
    && NeedsParentMark(o, st.classes[c])
  }

  /** One step up: the ancestors of `x` other than its parent `p` are those of `p`, and the walk reaches them from `x` exactly when it passes `p`. */
  lemma ReachesStep(t: Tree, x: nat, p: nat, q: nat)
    requires WellFormed(t) && x < |t| && t[x].parent == Some(p) && q != p
    ensures Desc(t, q, x) <==> Desc(t, q, p)
    ensures Desc(t, q, p) ==> (Reaches(t, x, q) <==> !Stops(t, p) && Reaches(t, p, q))
  {
    assert NodeOk(t, x);
    if Desc(t, q, p) {
      if Reaches(t, x, q) {
        forall w: nat | Desc(t, w, p) && Desc(t, q, w) ensures !Stops(t, w) {
          assert Desc(t, w, x);
        }
        assert Desc(t, p, x);
      }
      if !Stops(t, p) && Reaches(t, p, q) {
        forall w: nat | Desc(t, w, x) && Desc(t, q, w) ensures !Stops(t, w) {
          assert w == p || Desc(t, w, p);
        }
      }
    }
  }

  /** The walk reaches its starting point's parent when that parent is a list item. */
  lemma ReachesParent(t: Tree, x: nat, p: nat)
    requires WellFormed(t) && x < |t| && t[x].parent == Some(p)
    ensures Desc(t, p, x) && Reaches(t, x, p)
  {
    assert NodeOk(t, x);
    forall w: nat ensures !(Desc(t, w, x) && Desc(t, p, w)) {
      DescOrdered(t, w, p);
      DescOrdered(t, p, w);
      DescOrdered(t, p, p);
      assert Desc(t, w, x) ==> w == p || Desc(t, w, p);
    }
  }

  /**
   * Lines 83-89 exactly: the walk from `x` adds the parent classes to every
   * element it marks and changes no other class list.
   */
  lemma {:induction false} WalkMarksExactly(o: Options, t: Tree, st: DomState, x: nat)
    requires WellFormed(t) && Fits(t, st) && x < |t|
    ensures forall c | 0 <= c < |t| ::
              Walk(o, t, st, x).classes[c]
              == if MarkedBy(o, t, st, x, c) then st.classes[c] + TokenSet(o.parentClasses) else st.classes[c]
    decreases x
  {
    assert NodeOk(t, x);
    var r := Walk(o, t, st, x);
    match t[x].parent
    case None =>
    case Some(p) =>
      if t[p].tag == LI {
        var s' := MarkParent(o, t, st, p);
        WalkMarksExactly(o, t, s', p);
        ReachesParent(t, x, p);
        forall c | 0 <= c < |t|
          ensures r.classes[c] == if MarkedBy(o, t, st, x, c) then st.classes[c] + TokenSet(o.parentClasses) else st.classes[c]
        {
          if FirstChild(t, p) == Some(c) {
            DescOrdered(t, p, p);
            assert !MarkedBy(o, t, s', p, c);
          } else {
            assert s'.classes[c] == st.classes[c];
            if t[c].parent.Some? && t[c].parent.value != p {
              ReachesStep(t, x, p, t[c].parent.value);
            }
          }
        }
      } else if t[p].matchesMenu {
        forall c | 0 <= c < |t| ensures !MarkedBy(o, t, st, x, c) {
          if t[c].parent.Some? && t[c].parent.value != p {
            ReachesStep(t, x, p, t[c].parent.value);
          }
        }
      } else {
        WalkMarksExactly(o, t, st, p);
        forall c | 0 <= c < |t| ensures MarkedBy(o, t, st, x, c) == MarkedBy(o, t, st, p, c) {
          if t[c].parent.Some? && t[c].parent.value != p {
            ReachesStep(t, x, p, t[c].parent.value);
          }
        }
      }
  }

  /** Line 88: nothing above an element that stops the walk is marked by it. */
  lemma WalkStopsAtMenu(o: Options, t: Tree, st: DomState, x: nat, w: nat, c: nat)
    requires WellFormed(t) && Fits(t, st) && x < |t| && c < |t|
    requires Desc(t, w, x) && Stops(t, w) && t[c].parent.Some? && Desc(t, t[c].parent.value, w)
    ensures Walk(o, t, st, x).classes[c] == st.classes[c]
  {
    WalkMarksExactly(o, t, st, x);
    DescTrans(t, t[c].parent.value, w, x);
    assert !Reaches(t, x, t[c].parent.value);
  }

  /**
   * Lines 84-88 as written: the loop tests `item.parentNode` before it steps,
   * so from the top element (a node without a parent here, the document
   * element) it steps on to `document`, which has no `matches`, and line 88
   * throws. The walk from `x` gets there when nothing above `x` stops it.
   */
  predicate Escapes(t: Tree, x: nat)
    requires WellFormed(t) && x < |t|
    decreases x
  {
    assert NodeOk(t, x);
    match t[x].parent
    case None => true
    case Some(p) => !Stops(t, p) && Escapes(t, p)
  }

  /** The walk from `x` throws exactly when no proper ancestor of `x` stops it. */
  lemma {:induction false} EscapesExactly(t: Tree, x: nat)
    requires WellFormed(t) && x < |t|
    ensures Escapes(t, x) <==> forall w: nat | Desc(t, w, x) :: !Stops(t, w)
    decreases x
  {
    assert NodeOk(t, x);
    match t[x].parent
    case None =>
    case Some(p) =>
      EscapesExactly(t, p);
      forall w: nat ensures Desc(t, w, x) <==> w == p || Desc(t, w, p) {
      }
  }

  /** Lines 81-89 for one link `a`: the active classes on `a`, then the walk from `a`'s parent. */
  function MarkLink(o: Options, t: Tree, st: DomState, a: nat): (r: DomState)
    requires WellFormed(t) && Fits(t, st) && a < |t|
    ensures Fits(t, r)
    ensures r.hiddenAttr == st.hiddenAttr && r.ids == st.ids && r.depth == st.depth && r.toggles == st.toggles
  {
    assert NodeOk(t, a);
    var s1 := AddTokens(st, a, o.activeClasses);
    match t[a].parent
    case None => s1
    case Some(x) => Walk(o, t, s1, x)
  }

  /** Line 79-80: the links the selector matches, in document order: an item class and `href` equal to the current path. */
  function ActiveLinks(o: Options, t: Tree, st: DomState, s: seq<nat>, path: string): (r: seq<nat>)
    requires Fits(t, st)
    ensures forall x :: x in r <==> x in s && x < |t| && HasAny(st.classes[x], o.itemClasses) && t[x].href == Some(path)
    ensures forall k | 0 <= k < |r| :: r[k] < |t|
  {
    if s == [] then []
    else
      var rest := ActiveLinks(o, t, st, s[1..], path);
      assert forall x :: x in s <==> x == s[0] || x in s[1..];
      if s[0] < |t| && HasAny(st.classes[s[0]], o.itemClasses) && t[s[0]].href == Some(path)
      then [s[0]] + rest
      else rest
  }

  /** The `forEach` of line 80: each matched link in turn. */
  function MarkAll(o: Options, t: Tree, st: DomState, links: seq<nat>): (r: DomState)
    requires WellFormed(t) && Fits(t, st) && forall k | 0 <= k < |links| :: links[k] < |t|
    ensures Fits(t, r)
    ensures r.hiddenAttr == st.hiddenAttr && r.ids == st.ids && r.depth == st.depth && r.toggles == st.toggles
    decreases |links|
  {
    if links == [] then st
    else MarkLink(o, t, MarkAll(o, t, st, links[..|links| - 1]), links[|links| - 1])
  }

  /** Marking link `a` as written throws once its marks are made: when its parent's walk escapes. */
  predicate LinkThrows(t: Tree, a: nat)
    requires WellFormed(t) && a < |t|
  {
    assert NodeOk(t, a);
    t[a].parent.Some? && Escapes(t, t[a].parent.value)
  }

  /** The page after a run that may have thrown, and whether it did. */
  datatype Outcome = Outcome(st: DomState, threw: bool)

  /** The `forEach` of line 80 as written: the links in turn, until one throws. */
  function MarkAllAsWritten(o: Options, t: Tree, st: DomState, links: seq<nat>): (r: Outcome)
    requires WellFormed(t) && Fits(t, st) && forall k | 0 <= k < |links| :: links[k] < |t|
    ensures Fits(t, r.st)
    ensures r.st.hiddenAttr == st.hiddenAttr && r.st.ids == st.ids && r.st.depth == st.depth && r.st.toggles == st.toggles
    decreases |links|
  {
    if links == [] then Outcome(st, false)
    else
      var p := MarkAllAsWritten(o, t, st, links[..|links| - 1]);
      if p.threw then p
      else Outcome(MarkLink(o, t, p.st, links[|links| - 1]), LinkThrows(t, links[|links| - 1]))
  }

  /** `addClasses(menu, classes)` as a whole, with the path from `options.path` or the page's pathname. */
  function AddClassesSpec(o: Options, t: Tree, st: DomState, menu: nat, pathname: string): (r: DomState)
    requires WellFormed(t) && Fits(t, st) && menu < |t|
    ensures Fits(t, r)
    ensures r.hiddenAttr == st.hiddenAttr && r.ids == st.ids && r.depth == st.depth && r.toggles == st.toggles
  {
    var links := ActiveLinks(o, t, st, PreOrder(t, menu), CurrentPath(o.path, pathname));
    assert forall k | 0 <= k < |links| :: links[k] in links;
    MarkAll(o, t, st, links)
  }

  /** `addClasses(menu, classes)` as written. */
  function AddClassesAsWritten(o: Options, t: Tree, st: DomState, menu: nat, pathname: string): (r: Outcome)
    requires WellFormed(t) && Fits(t, st) && menu < |t|
    ensures Fits(t, r.st)
    ensures r.st.hiddenAttr == st.hiddenAttr && r.st.ids == st.ids && r.st.depth == st.depth && r.st.toggles == st.toggles
  {
    var links := ActiveLinks(o, t, st, PreOrder(t, menu), CurrentPath(o.path, pathname));
    assert forall k | 0 <= k < |links| :: links[k] in links;
    MarkAllAsWritten(o, t, st, links)
  }

  // ---------------------------------------------------------------------
  // What the marking promises

  /** Marking one link gives it the active classes, and only ever adds the active or parent classes. */
  lemma MarkLinkAdds(o: Options, t: Tree, st: DomState, a: nat)
    requires WellFormed(t) && Fits(t, st) && a < |t|
    ensures TokenSet(o.activeClasses) <= MarkLink(o, t, st, a).classes[a]
    ensures forall i | 0 <= i < |t| ::
              && st.classes[i] <= MarkLink(o, t, st, a).classes[i]
              && MarkLink(o, t, st, a).classes[i] <= st.classes[i] + TokenSet(o.activeClasses) + TokenSet(o.parentClasses)
  {
    var s1 := AddTokens(st, a, o.activeClasses);
    match t[a].parent
    case None =>
    case Some(x) =>
      assert NodeOk(t, a);
      WalkMarksExactly(o, t, s1, x);
      DescOrdered(t, x, x);
      assert !MarkedBy(o, t, s1, x, a);
  }

  /** Every matched link ends with the active classes, and the marking only ever adds active or parent classes. */
  lemma {:induction false} MarkAllAdds(o: Options, t: Tree, st: DomState, links: seq<nat>)
    requires WellFormed(t) && Fits(t, st) && forall k | 0 <= k < |links| :: links[k] < |t|
    ensures forall k | 0 <= k < |links| :: TokenSet(o.activeClasses) <= MarkAll(o, t, st, links).classes[links[k]]
    ensures forall i | 0 <= i < |t| ::
              && st.classes[i] <= MarkAll(o, t, st, links).classes[i]
              && MarkAll(o, t, st, links).classes[i] <= st.classes[i] + TokenSet(o.activeClasses) + TokenSet(o.parentClasses)
    decreases |links|
  {
    if links != [] {
      var p := links[..|links| - 1];
      var a := links[|links| - 1];
      MarkAllAdds(o, t, st, p);
      var s := MarkAll(o, t, st, p);
      MarkLinkAdds(o, t, s, a);
      forall k | 0 <= k < |links| ensures TokenSet(o.activeClasses) <= MarkAll(o, t, st, links).classes[links[k]] {
        if k < |links| - 1 {
          assert links[k] == p[k];
        }
      }
    }
  }

  /** `addClasses` gives the active classes to every item link inside the menu whose `href` is the current path. */
  lemma AddClassesMarksLinks(o: Options, t: Tree, st: DomState, menu: nat, pathname: string, a: nat)
    requires WellFormed(t) && Fits(t, st) && menu < |t|
    requires a in PreOrder(t, menu) && HasAny(st.classes[a], o.itemClasses)
    requires t[a].href == Some(CurrentPath(o.path, pathname))
    ensures TokenSet(o.activeClasses) <= AddClassesSpec(o, t, st, menu, pathname).classes[a]
  {
    var links := ActiveLinks(o, t, st, PreOrder(t, menu), CurrentPath(o.path, pathname));
    assert forall k | 0 <= k < |links| :: links[k] in links;
    MarkAllAdds(o, t, st, links);
    assert a in links;
    var k :| 0 <= k < |links| && links[k] == a;
  }

  /**
   * The walk started for `links[k]` marks `c`: it runs from the link's parent
   * over the state left by the earlier links plus the link's own active classes.
   */
  ghost predicate ParentMarkedBy(o: Options, t: Tree, st: DomState, links: seq<nat>, k: nat, c: nat)
    requires WellFormed(t) && Fits(t, st) && forall j | 0 <= j < |links| :: links[j] < |t|
    requires k < |links|
  {
    assert forall j | 0 <= j < k :: links[..k][j] == links[j];
    var s1 := AddTokens(MarkAll(o, t, st, links[..k]), links[k], o.activeClasses);
    t[links[k]].parent.Some? && MarkedBy(o, t, s1, t[links[k]].parent.value, c)
  }

  /** Some link's walk marks `c`. */
  ghost predicate ParentMarked(o: Options, t: Tree, st: DomState, links: seq<nat>, c: nat)
    requires WellFormed(t) && Fits(t, st) && forall j | 0 <= j < |links| :: links[j] < |t|
  {
    exists k | 0 <= k < |links| :: ParentMarkedBy(o, t, st, links, k, c)
  }

  /** Marking one link changes each class list exactly: the active classes on the link, the parent classes where its walk marks. */
  lemma MarkLinkExactly(o: Options, t: Tree, st: DomState, a: nat)
    requires WellFormed(t) && Fits(t, st) && a < |t|
    ensures forall i | 0 <= i < |t| ::
              MarkLink(o, t, st, a).classes[i]
              == st.classes[i] + (if i == a then TokenSet(o.activeClasses) else {})
                 + (if t[a].parent.Some? && MarkedBy(o, t, AddTokens(st, a, o.activeClasses), t[a].parent.value, i)
                    then TokenSet(o.parentClasses) else {})
  {
    assert NodeOk(t, a);
    if t[a].parent.Some? {
      WalkMarksExactly(o, t, AddTokens(st, a, o.activeClasses), t[a].parent.value);
    }
  }

  /** A link added at the end: some link's walk marks `c` when an earlier one did or the new one does. */
  lemma ParentMarkedSnoc(o: Options, t: Tree, st: DomState, links: seq<nat>, c: nat)
    requires WellFormed(t) && Fits(t, st) && forall k | 0 <= k < |links| :: links[k] < |t|
    requires links != []
    ensures ParentMarked(o, t, st, links, c)
            == (ParentMarked(o, t, st, links[..|links| - 1], c) || ParentMarkedBy(o, t, st, links, |links| - 1, c))
  {
    var p := links[..|links| - 1];
    forall k | 0 <= k < |p| ensures ParentMarkedBy(o, t, st, links, k, c) == ParentMarkedBy(o, t, st, p, k, c) {
      assert links[..k] == p[..k];
    }
    if ParentMarked(o, t, st, links, c) && !ParentMarkedBy(o, t, st, links, |p|, c) {
      var k :| 0 <= k < |links| && ParentMarkedBy(o, t, st, links, k, c);
      assert ParentMarkedBy(o, t, st, p, k, c);
    }
    if ParentMarked(o, t, st, p, c) {
      var k :| 0 <= k < |p| && ParentMarkedBy(o, t, st, p, k, c);
      assert ParentMarkedBy(o, t, st, links, k, c);
    }
  }

  /**
   * Marking the links changes each class list exactly: the links gain the
   * active classes, the elements some link's walk marks gain the parent
   * classes, and nothing else changes.
   */
  lemma {:induction false} MarkAllExactly(o: Options, t: Tree, st: DomState, links: seq<nat>)
    requires WellFormed(t) && Fits(t, st) && forall k | 0 <= k < |links| :: links[k] < |t|
    ensures forall i | 0 <= i < |t| ::
              MarkAll(o, t, st, links).classes[i]
              == st.classes[i] + (if i in links then TokenSet(o.activeClasses) else {})
                 + (if ParentMarked(o, t, st, links, i) then TokenSet(o.parentClasses) else {})
    decreases |links|
  {
    if links != [] {
      var n := |links| - 1;
      var p := links[..n];
      var a := links[n];
      MarkAllExactly(o, t, st, p);
      var s := MarkAll(o, t, st, p);
      MarkLinkExactly(o, t, s, a);
      forall i | 0 <= i < |t|
        ensures MarkAll(o, t, st, links).classes[i]
                == st.classes[i] + (if i in links then TokenSet(o.activeClasses) else {})
                   + (if ParentMarked(o, t, st, links, i) then TokenSet(o.parentClasses) else {})
      {
        assert i in links <==> i in p || i == a;
        ParentMarkedSnoc(o, t, st, links, i);
      }
    }
  }

  /**
   * `addClasses` exactly: the item links inside the menu whose `href` is the
   * current path gain the active classes, the first children the walks from
   * those links mark gain the parent classes, and no other class changes.
   */
  lemma AddClassesExactly(o: Options, t: Tree, st: DomState, menu: nat, pathname: string)
    requires WellFormed(t) && Fits(t, st) && menu < |t|
    ensures forall i | 0 <= i < |t| ::
              AddClassesSpec(o, t, st, menu, pathname).classes[i]
              == st.classes[i]
                 + (if i in PreOrder(t, menu) && HasAny(st.classes[i], o.itemClasses)
                       && t[i].href == Some(CurrentPath(o.path, pathname))
                    then TokenSet(o.activeClasses) else {})
                 + (if ParentMarked(o, t, st, ActiveLinks(o, t, st, PreOrder(t, menu), CurrentPath(o.path, pathname)), i)
                    then TokenSet(o.parentClasses) else {})
  {
    var links := ActiveLinks(o, t, st, PreOrder(t, menu), CurrentPath(o.path, pathname));
    assert forall k | 0 <= k < |links| :: links[k] in links;
    MarkAllExactly(o, t, st, links);
  }

  /** `addClasses` never removes a class, and adds only the active and parent classes. */
  lemma AddClassesOnlyAdds(o: Options, t: Tree, st: DomState, menu: nat, pathname: string)
    requires WellFormed(t) && Fits(t, st) && menu < |t|
    ensures forall i | 0 <= i < |t| ::
              && st.classes[i] <= AddClassesSpec(o, t, st, menu, pathname).classes[i]
              && AddClassesSpec(o, t, st, menu, pathname).classes[i]
                 <= st.classes[i] + TokenSet(o.activeClasses) + TokenSet(o.parentClasses)
  {
    var links := ActiveLinks(o, t, st, PreOrder(t, menu), CurrentPath(o.path, pathname));
    assert forall k | 0 <= k < |links| :: links[k] in links;
    MarkAllAdds(o, t, st, links);
  }

  // ---------------------------------------------------------------------
  // The marking as written

  predicate NoneThrows(t: Tree, links: seq<nat>)
    requires WellFormed(t) && forall k | 0 <= k < |links| :: links[k] < |t|
  {
    forall k | 0 <= k < |links| :: !LinkThrows(t, links[k])
  }

  /** Once a prefix of the links has thrown, the rest are never processed. */
  lemma {:induction false} ThrowStops(o: Options, t: Tree, st: DomState, links: seq<nat>, i: nat)
    requires WellFormed(t) && Fits(t, st) && forall k | 0 <= k < |links| :: links[k] < |t|
    requires i <= |links| && MarkAllAsWritten(o, t, st, links[..i]).threw
    ensures MarkAllAsWritten(o, t, st, links) == MarkAllAsWritten(o, t, st, links[..i])
    decreases |links|
  {
    if i < |links| {
      var p := links[..|links| - 1];
      assert p[..i] == links[..i];
      ThrowStops(o, t, st, p, i);
    } else {
      assert links[..i] == links;
    }
  }

  /**
   * The as-written marking throws exactly when some matched link's walk
   * escapes. Until then it makes the same marks as the corrected one: all of
   * them when nothing throws, and those of the links up to and including the
   * first that throws otherwise.
   */
  lemma {:induction false} MarkAllAsWrittenAgrees(o: Options, t: Tree, st: DomState, links: seq<nat>)
    requires WellFormed(t) && Fits(t, st) && forall k | 0 <= k < |links| :: links[k] < |t|
    ensures MarkAllAsWritten(o, t, st, links).threw <==> !NoneThrows(t, links)
    ensures !MarkAllAsWritten(o, t, st, links).threw ==> MarkAllAsWritten(o, t, st, links).st == MarkAll(o, t, st, links)
    ensures forall k | 0 <= k < |links| && LinkThrows(t, links[k]) && NoneThrows(t, links[..k]) ::
              MarkAllAsWritten(o, t, st, links).st == MarkAll(o, t, st, links[..k + 1])
    decreases |links|
  {
    if links != [] {
      var n := |links| - 1;
      var p := links[..n];
      MarkAllAsWrittenAgrees(o, t, st, p);
      assert !NoneThrows(t, links) <==> !NoneThrows(t, p) || LinkThrows(t, links[n]) by {
        forall k | 0 <= k < n ensures p[k] == links[k] { }
      }
      forall k | 0 <= k < |links| && LinkThrows(t, links[k]) && NoneThrows(t, links[..k])
        ensures MarkAllAsWritten(o, t, st, links).st == MarkAll(o, t, st, links[..k + 1])
      {
        if k < n {
          assert links[..k] == p[..k] && links[..k + 1] == p[..k + 1];
          assert p[k] == links[k];
        } else {
          assert links[..k] == p && links[..k + 1] == links;
        }
      }
    }
  }

  /**
   * `addClasses` as written throws exactly when a matched link's walk
   * escapes, and otherwise gives the corrected marking.
   */
  lemma AddClassesAsWrittenAgrees(o: Options, t: Tree, st: DomState, menu: nat, pathname: string)
    requires WellFormed(t) && Fits(t, st) && menu < |t|
    ensures AddClassesAsWritten(o, t, st, menu, pathname).threw <==>
              exists a | a in PreOrder(t, menu) && HasAny(st.classes[a], o.itemClasses)
                         && t[a].href == Some(CurrentPath(o.path, pathname)) :: LinkThrows(t, a)
    ensures !AddClassesAsWritten(o, t, st, menu, pathname).threw ==>
              AddClassesAsWritten(o, t, st, menu, pathname).st == AddClassesSpec(o, t, st, menu, pathname)
  {
    var links := ActiveLinks(o, t, st, PreOrder(t, menu), CurrentPath(o.path, pathname));
    assert forall k | 0 <= k < |links| :: links[k] in links;
    MarkAllAsWrittenAgrees(o, t, st, links);
    if !NoneThrows(t, links) {
      var k :| 0 <= k < |links| && LinkThrows(t, links[k]);
      assert links[k] in links;
    }
    forall a | a in links ensures !LinkThrows(t, a) || !NoneThrows(t, links) {
      var k :| 0 <= k < |links| && links[k] == a;
    }
  }

  /**
   * A matched link directly inside the menu list walks up from the menu list
   * itself, past it: as written it throws unless something above the menu
   * matches the menu selector, while the corrected marking completes.
   */
  lemma LinkUnderMenuThrows(o: Options, t: Tree, st: DomState, menu: nat, pathname: string, a: nat)
    requires WellFormed(t) && Fits(t, st) && menu < |t|
    requires a < |t| && t[a].parent == Some(menu)
    requires HasAny(st.classes[a], o.itemClasses) && t[a].href == Some(CurrentPath(o.path, pathname))
    requires forall w: nat | Desc(t, w, menu) :: !Stops(t, w)
    ensures AddClassesAsWritten(o, t, st, menu, pathname).threw
    ensures TokenSet(o.activeClasses) <= AddClassesSpec(o, t, st, menu, pathname).classes[a]
  {
    assert NodeOk(t, a);
    EscapesExactly(t, menu);
    assert LinkThrows(t, a);
    PreOrderExactly(t, menu);
    assert Desc(t, menu, a);
    assert a in PreOrder(t, menu);
    AddClassesAsWrittenAgrees(o, t, st, menu, pathname);
    AddClassesMarksLinks(o, t, st, menu, pathname, a);
  }
}
