/**
 * The dist version of the component as an object (dist/boringmenu.module.js):
 * the constructor finds the menu, marks the active path, discovers the
 * sub-menus and creates their toggles; `toggleMenu` and the toggle's click and
 * key handlers then change the page. Each method is proved against the
 * specification functions of `MenuState`, `Marking` and `Toggling`, whose
 * properties are lemmas there and below.
 */
module BoringMenu {
  import opened Wrappers
  import opened Dom
  import opened MenuTree
  import opened Options
  import opened MenuState
  import opened Marking
  import opened Toggling

  /**
   * What the class options need for the component not to throw (lines 79,
   * 81, 107 and 276): at least one item and one active class, and no token
   * that is empty or holds a space in any class list the component selects
   * by or adds, the hiding classes included.
   */
  predicate ClassOptionsValid(o: Options) {
    && |o.itemClasses| >= 1 && |o.activeClasses| >= 1
    && TokensValid(o.itemClasses) && TokensValid(o.activeClasses) && TokensValid(o.parentClasses)
    && (o.hidden.ClassMode? ==> TokensValid(o.hidden.tokens))
  }

  /** Tokens `classList.add` accepts and a class selector reads as one class: non-empty and space-free. */
  predicate TokensValid(tokens: seq<string>) {
    forall k | 0 <= k < |tokens| :: tokens[k] != "" && ' ' !in tokens[k]
  }

  /** The page after lines 51 and 63: the root's depth attribute, then the active path. */
  function Marked(o: Options, t: Tree, root: nat, pathname: string): (r: DomState)
    requires WellFormed(t) && root < |t|
    ensures Fits(t, r) && r.toggles == map[] && r.depth == map[root := 1]
  {
    AddClassesSpec(o, t, InitialState(t).(depth := map[root := 1]), root, pathname)
  }

  /**
   * Line 62 as written: `addClasses` on the root throws when a matched link's
   * walk passes the top element; the constructor then stops there.
   */
  predicate InitThrows(o: Options, t: Tree, root: nat, pathname: string)
    requires WellFormed(t) && root < |t|
  {
    AddClassesAsWritten(o, t, InitialState(t).(depth := map[root := 1]), root, pathname).threw
  }

  /** The page after the constructor (lines 51-65). */
  function Initialised(o: Options, t: Tree, root: nat, pathname: string): DomState
    requires WellFormed(t) && root < |t|
  {
    FindAll(o, t, Marked(o, t, root, pathname), Discover(t, root, 2), 0)
  }

  /** Lines 53, 103-105: the `k`-th sub-menu found gets the id `<id>-<k+1>` and the depth it was found at; the root keeps depth 1. */
  lemma InitialisedIds(o: Options, t: Tree, root: nat, pathname: string)
    requires WellFormed(t) && root < |t|
    ensures var fs := Discover(t, root, 2);
            var st := Initialised(o, t, root, pathname);
            && Fits(t, st)
            && DepthAttr(st, root) == Some(1)
            && forall k | 0 <= k < |fs| ::
                 fs[k].list < |t| && st.ids[fs[k].list] == SubMenuId(o.id, k + 1) && DepthAttr(st, fs[k].list) == Some(fs[k].depth)
  {
    var fs := Discover(t, root, 2);
    DiscoverNoRepeats(t, root, 2);
    DiscoverBounds(t, root, 2);
    FindAllIds(o, t, Marked(o, t, root, pathname), fs, 0);
    FindAllFrame(o, t, Marked(o, t, root, pathname), fs, 0, root);
  }

  /**
   * Lines 51, 97, 105 and 113: a sub-menu whose item sits directly in the
   * root list has depth 2; any other sits in an item of an earlier sub-menu
   * and has that sub-menu's depth plus one.
   */
  lemma InitialisedDepths(o: Options, t: Tree, root: nat, pathname: string, k: nat)
    requires WellFormed(t) && root < |t| && k < |Discover(t, root, 2)|
    ensures var fs := Discover(t, root, 2);
            var st := Initialised(o, t, root, pathname);
            && Fits(t, st)
            && fs[k].item < |t|
            && (|| (t[fs[k].item].parent == Some(root) && DepthAttr(st, fs[k].list) == Some(2))
                || exists j | 0 <= j < k ::
                     && t[fs[k].item].parent == Some(fs[j].list)
                     && DepthAttr(st, fs[k].list) == Some(fs[j].depth + 1)
                     && DepthAttr(st, fs[j].list) == Some(fs[j].depth))
  {
    var fs := Discover(t, root, 2);
    InitialisedIds(o, t, root, pathname);
    DiscoverPlaced(t, root, 2);
    assert Placed(t, root, 2, fs, k);
  }

  /** The sub-menus with a toggle are exactly the sub-menus found, every toggle matches its list, and no two share an id. */
  lemma InitialisedToggles(o: Options, t: Tree, root: nat, pathname: string)
    requires WellFormed(t) && root < |t|
    ensures var st := Initialised(o, t, root, pathname);
            && Fits(t, st)
            && (forall n :: n in st.toggles <==> n in Lists(Discover(t, root, 2)))
            && Consistent(o, st) && IdsDistinct(st)
  {
    var fs := Discover(t, root, 2);
    var s1 := Marked(o, t, root, pathname);
    DiscoverNoRepeats(t, root, 2);
    DiscoverBounds(t, root, 2);
    FindAllFits(o, t, s1, fs, 0);
    FindAllToggled(o, t, s1, fs, 0);
    forall n ensures n in Lists(fs) <==> Listed(fs, n) {
      ListsListed(fs, n);
    }
    FindAllConsistent(o, t, s1, fs, 0);
    FindAllIdsDistinct(o, t, s1, fs, 0);
  }

  /**
   * Line 107 over the whole discovery: a sub-menu ends hidden exactly when its
   * item and everything inside the item lack the active classes once the
   * active path is marked, or it was hidden in the markup.
   */
  lemma InitialisedHidden(o: Options, t: Tree, root: nat, pathname: string)
    requires WellFormed(t) && root < |t| && HiddenModeOk(o.hidden)
    ensures var fs := Discover(t, root, 2);
            var st := Initialised(o, t, root, pathname);
            var s1 := Marked(o, t, root, pathname);
            && Fits(t, st)
            && forall k | 0 <= k < |fs| ::
                 fs[k].item < |t| && fs[k].list < |t|
                 && IsHidden(o, st, fs[k].list) == (StartsHidden(o, t, s1, fs[k].item) || IsHidden(o, s1, fs[k].list))
  {
    var fs := Discover(t, root, 2);
    DiscoverNoRepeats(t, root, 2);
    DiscoverBounds(t, root, 2);
    DiscoverEarlierOutside(t, root, 2);
    FindAllHidden(o, t, Marked(o, t, root, pathname), fs, 0);
  }

  /** Once the active path is marked, an item holding a link to the current page shows activity. */
  lemma CurrentLinkActive(o: Options, t: Tree, root: nat, pathname: string, item: nat, a: nat)
    requires WellFormed(t) && root < |t| && item < |t| && |o.activeClasses| >= 1
    requires a in PreOrder(t, root) && a in PreOrder(t, item)
    requires HasAny(t[a].classes, o.itemClasses) && t[a].href == Some(CurrentPath(o.path, pathname))
    ensures Fits(t, Marked(o, t, root, pathname)) && ActiveWithin(o, t, Marked(o, t, root, pathname), item)
  {
    var s0 := InitialState(t).(depth := map[root := 1]);
    var s1 := Marked(o, t, root, pathname);
    AddClassesMarksLinks(o, t, s0, root, pathname, a);
    assert o.activeClasses[0] in s1.classes[a];
    var j :| 0 <= j < |PreOrder(t, item)| && PreOrder(t, item)[j] == a;
    assert HasAny(s1.classes[PreOrder(t, item)[j]], o.activeClasses);
  }

  /** A link to the current page inside a sub-menu's item keeps that sub-menu as the markup had it. */
  lemma CurrentPageShown(o: Options, t: Tree, root: nat, pathname: string, k: nat, a: nat)
    requires WellFormed(t) && root < |t| && HiddenModeOk(o.hidden) && |o.activeClasses| >= 1
    requires k < |Discover(t, root, 2)| && Discover(t, root, 2)[k].item < |t|
    requires a in PreOrder(t, root) && a in PreOrder(t, Discover(t, root, 2)[k].item)
    requires HasAny(t[a].classes, o.itemClasses) && t[a].href == Some(CurrentPath(o.path, pathname))
    ensures var st := Initialised(o, t, root, pathname);
            var list := Discover(t, root, 2)[k].list;
            && Fits(t, st) && list < |t|
            && IsHidden(o, st, list) == IsHidden(o, Marked(o, t, root, pathname), list)
  {
    var fs := Discover(t, root, 2);
    CurrentLinkActive(o, t, root, pathname, fs[k].item, a);
    InitialisedHidden(o, t, root, pathname);
  }

  /**
   * The page, the sub-menu counter and the registry are what the discoveries
   * `fs` make of `dom0`, `num0` and `reg0`: each found list numbered, shown or
   * hidden and given its toggle, counted, and registered in order.
   */
  ghost predicate Walked(o: Options, t: Tree, fs: seq<Found>, dom0: DomState, num0: nat, reg0: seq<nat>,
                         dom: DomState, num: nat, reg: seq<nat>)
  {
    dom == FindAll(o, t, dom0, fs, num0) && num == num0 + |fs| && reg == reg0 + Lists(fs)
  }

  /** Walking `p` and then `q` is walking `p + q`. */
  lemma WalkedConcat(o: Options, t: Tree, p: seq<Found>, q: seq<Found>,
                     dom0: DomState, num0: nat, reg0: seq<nat>, dom1: DomState, num1: nat, reg1: seq<nat>,
                     dom2: DomState, num2: nat, reg2: seq<nat>)
    requires Walked(o, t, p, dom0, num0, reg0, dom1, num1, reg1)
    requires Walked(o, t, q, dom1, num1, reg1, dom2, num2, reg2)
    ensures Walked(o, t, p + q, dom0, num0, reg0, dom2, num2, reg2)
  {
    FindAllConcat(o, t, dom0, p, q, num0);
    ListsConcat(p, q);
  }

  /** One more child item scanned: the walk over the first `i + 1` items. */
  lemma ScanNext(o: Options, t: Tree, menu: nat, i: nat, depth: nat,
                 dom0: DomState, num0: nat, reg0: seq<nat>, dom1: DomState, num1: nat, reg1: seq<nat>,
                 dom2: DomState, num2: nat, reg2: seq<nat>)
    requires WellFormed(t) && menu < |t| && i < |ChildItems(t, menu)|
    requires Walked(o, t, DiscoverItems(t, menu, i, depth), dom0, num0, reg0, dom1, num1, reg1)
    requires Walked(o, t, Branch(t, ChildItems(t, menu)[i], i, depth), dom1, num1, reg1, dom2, num2, reg2)
    ensures Walked(o, t, DiscoverItems(t, menu, i + 1, depth), dom0, num0, reg0, dom2, num2, reg2)
  {
    WalkedConcat(o, t, DiscoverItems(t, menu, i, depth), Branch(t, ChildItems(t, menu)[i], i, depth),
                 dom0, num0, reg0, dom1, num1, reg1, dom2, num2, reg2);
    assert DiscoverItems(t, menu, i + 1, depth)
        == DiscoverItems(t, menu, i, depth) + Branch(t, ChildItems(t, menu)[i], i, depth);
  }

  /** One sub-menu registered: numbered one past the counter, counted and registered. */
  lemma WalkedOne(o: Options, t: Tree, f: Found, dom0: DomState, num0: nat, reg0: seq<nat>)
    requires WellFormed(t) && Fits(t, dom0) && f.item < |t| && f.list < |t|
    ensures Walked(o, t, [f], dom0, num0, reg0, FindStep(o, t, dom0, f, num0 + 1), num0 + 1, reg0 + [f.list])
  {
    assert [f][..0] == [];
    assert Lists([f]) == [f.list] by {
      ListsCons(f, []);
    }
  }

  /**
   * The page and the event log are what the accordion's pass over `reg`
   * makes of `dom0` and `ev0`.
   */
  ghost predicate Closing(o: Options, t: Tree, dom0: DomState, ev0: seq<Event>, reg: seq<nat>, n: nat,
                          dom: DomState, ev: seq<Event>)
  {
    && Fits(t, dom0) && n < |t| && (forall k | 0 <= k < |reg| :: reg[k] < |t|)
    && dom == CloseOthers(o, t, dom0, reg, n).0 && ev == ev0 + CloseOthers(o, t, dom0, reg, n).1
  }

  /** One more registered menu takes its turn: the pass over the first `i + 1` menus. */
  lemma ClosingNext(o: Options, t: Tree, dom0: DomState, ev0: seq<Event>, reg: seq<nat>, n: nat, i: nat,
                    dom1: DomState, ev1: seq<Event>, dom2: DomState, ev2: seq<Event>)
    requires i < |reg| && (forall k | 0 <= k < |reg| :: reg[k] < |t|)
    requires Closing(o, t, dom0, ev0, reg[..i], n, dom1, ev1) && Fits(t, dom1)
    requires dom2 == CloseStep(o, t, dom1, reg[i], n).0 && ev2 == ev1 + CloseStep(o, t, dom1, reg[i], n).1
    ensures Closing(o, t, dom0, ev0, reg[..i + 1], n, dom2, ev2)
  {
    CloseOthersNext(o, t, dom0, reg, n, i);
    var p := CloseOthers(o, t, dom0, reg[..i], n);
    assert ev2 == ev0 + (p.1 + CloseStep(o, t, dom1, reg[i], n).1);
  }

  class Menu {
    /** The document and the effective options, fixed once the object exists. */
    const t: Tree
    const o: Options
    /** `this.menu`: the element matching the menu selector, if any. */
    const root: Option<nat>
    /** The state of the page. */
    var dom: DomState
    /** `this.menuNum`: the running counter of sub-menus. */
    var menuNum: nat
    /** `this.menuObjects`: the root, then every sub-menu in discovery order. */
    var menuObjects: seq<nat>
    /** The custom events dispatched so far. */
    var events: seq<Event>

    /** What every public method keeps true of the page. */
    ghost predicate Valid()
      reads this
    {
      && WellFormed(t) && HiddenModeOk(o.hidden) && Covered()
      && Consistent(o, dom) && IdsDistinct(dom)
    }

    /** What a toggle needs of the page: the per-element state covers the tree and the registry names its nodes. */
    ghost predicate Covered()
      reads this
    {
      Fits(t, dom) && forall k | 0 <= k < |menuObjects| :: menuObjects[k] < |t|
    }

    /**
     * Lines 37-70: with no menu, only the init event on the document; otherwise
     * the root's depth, the active path, the sub-menus and their toggles, then
     * the init event on the menu. When marking the active path throws (line
     * 88), the object is left as it was at the throw: no sub-menus, no toggles
     * and no init event.
     */
    constructor (t: Tree, o: Options, root: Option<nat>, pathname: string)
      requires WellFormed(t) && HiddenModeOk(o.hidden) && ClassOptionsValid(o)
      requires root.Some? ==> root.value < |t| && t[root.value].matchesMenu
      ensures this.t == t && this.o == o && this.root == root && Valid()
      ensures root.None? ==> dom == InitialState(t) && menuNum == 0 && menuObjects == [] && events == [InitDone(true)]
      ensures root.Some? && InitThrows(o, t, root.value, pathname) ==>
                && dom == AddClassesAsWritten(o, t, InitialState(t).(depth := map[root.value := 1]), root.value, pathname).st
                && menuNum == 0 && menuObjects == [root.value] && events == []
      ensures root.Some? && !InitThrows(o, t, root.value, pathname) ==>
                && dom == Initialised(o, t, root.value, pathname)
                && menuNum == |Discover(t, root.value, 2)|
                && menuObjects == [root.value] + Lists(Discover(t, root.value, 2))
                && events == [InitDone(false)]
    {
      this.t := t;
      this.o := o;
      this.root := root;
      dom := InitialState(t);
      menuNum := 0;
      menuObjects := [];
      events := [];
      new;
      if root.None? {
        events := [InitDone(true)];
        return;
      }
      var r := root.value;
      dom := dom.(depth := dom.depth[r := 1]);
      menuObjects := [r];
      var threw := AddClasses(r, pathname);
      if threw {
        return;
      }
      AddClassesAsWrittenAgrees(o, t, InitialState(t).(depth := map[r := 1]), r, pathname);
      assert dom == Marked(o, t, r, pathname);
      FindSubMenus(r, 2);
      events := events + [InitDone(false)];
      InitialisedToggles(o, t, r, pathname);
      DiscoverBounds(t, r, 2);
      assert forall k | 0 <= k < |menuObjects| :: menuObjects[k] < |t| by {
        forall k | 0 <= k < |menuObjects| ensures menuObjects[k] < |t| {
          if k > 0 {
            ListsAt(Discover(t, r, 2), k - 1);
            assert menuObjects[k] == Discover(t, r, 2)[k - 1].list;
          }
        }
      }
    }

    /**
     * `addClasses(menu, classes)` (lines 77-91): for each matched link, add the
     * active classes, then walk up from its parent, marking first children of
     * list items, until the menu element is reached; `threw` is set when a walk
     * passes the top element instead, where line 88 throws and the remaining
     * links are left alone.
     */
    method AddClasses(menu: nat, pathname: string) returns (threw: bool)
      requires WellFormed(t) && Fits(t, dom) && menu < |t|
      modifies this
      ensures Outcome(dom, threw) == AddClassesAsWritten(o, t, old(dom), menu, pathname)
      ensures menuNum == old(menuNum) && menuObjects == old(menuObjects) && events == old(events)
    {
      var path := CurrentPath(o.path, pathname);
      var links := ActiveLinks(o, t, dom, PreOrder(t, menu), path);
      assert forall k | 0 <= k < |links| :: links[k] in links;
      dom, threw := MarkLinks(dom, links);
    }

    /** The `forEach` of line 80: the active classes on each link, then the walk up from it, until a walk throws. */
    method MarkLinks(st: DomState, links: seq<nat>) returns (r: DomState, threw: bool)
      requires WellFormed(t) && Fits(t, st) && forall k | 0 <= k < |links| :: links[k] < |t|
      ensures Fits(t, r) && Outcome(r, threw) == MarkAllAsWritten(o, t, st, links)
    {
      r, threw := st, false;
      var i := 0;
      while i < |links| && !threw
        invariant 0 <= i <= |links|
        invariant Fits(t, r) && Outcome(r, threw) == MarkAllAsWritten(o, t, st, links[..i])
      {
        var a := links[i];
        assert NodeOk(t, a);
        ghost var before := r;
        r := AddTokens(r, a, o.activeClasses);
        if t[a].parent.Some? {
          r, threw := MarkAncestors(r, t[a].parent.value);
        }
        assert r == MarkLink(o, t, before, a) && threw == LinkThrows(t, a);
        assert links[..i + 1][..i] == links[..i];
        i := i + 1;
      }
      if i < |links| {
        ThrowStops(o, t, st, links, i);
      } else {
        assert links[..|links|] == links;
      }
    }

    /**
     * The inner loop of lines 84-89: from `x` up, mark the first child of each
     * list item passed, until the menu element; `escaped` is set when the loop
     * passes the top element instead, which is where line 88 throws.
     */
    method MarkAncestors(st: DomState, x: nat) returns (r: DomState, escaped: bool)
      requires WellFormed(t) && Fits(t, st) && x < |t|
      ensures Fits(t, r) && r == Walk(o, t, st, x) && escaped == Escapes(t, x)
    {
      r := st;
      var y: nat := x;
      while t[y].parent.Some?
        invariant y < |t| && Fits(t, r) && Walk(o, t, r, y) == Walk(o, t, st, x)
        invariant Escapes(t, y) == Escapes(t, x)
        decreases y
      {
        assert NodeOk(t, y);
        var p := t[y].parent.value;
        if t[p].tag == LI {
          ghost var prev := r;
          var c := FirstChild(t, p);
          if c.Some? {
            var isItem := HasClass(r.classes[c.value], o.itemClasses);
            var isActive := HasClass(r.classes[c.value], o.activeClasses);
            if isItem && !isActive {
              r := AddTokens(r, c.value, o.parentClasses);
            }
          }
          assert r == MarkParent(o, t, prev, p);
        } else if t[p].matchesMenu {
          return r, false;
        }
        y := p;
      }
      escaped := true;
    }

    /**
     * `findSubMenus(menu, depth)` (lines 97-115): the `forEach` over the child
     * items of `menu`, in document order.
     */
    method FindSubMenus(menu: nat, depth: nat)
      requires WellFormed(t) && Fits(t, dom) && menu < |t|
      modifies this
      ensures Fits(t, dom) && events == old(events)
      ensures Walked(o, t, Discover(t, menu, depth), old(dom), old(menuNum), old(menuObjects), dom, menuNum, menuObjects)
      decreases |t| - menu, 0
    {
      var items := ChildItems(t, menu);
      ghost var dom0, num0, reg0 := dom, menuNum, menuObjects;
      var i := 0;
      assert Walked(o, t, DiscoverItems(t, menu, 0, depth), dom0, num0, reg0, dom, menuNum, menuObjects);
      while i < |items|
        invariant 0 <= i <= |items| && Fits(t, dom) && events == old(events)
        invariant Walked(o, t, DiscoverItems(t, menu, i, depth), dom0, num0, reg0, dom, menuNum, menuObjects)
      {
        ghost var dom1, num1, reg1 := dom, menuNum, menuObjects;
        ScanItem(items[i], i, depth);
        ScanNext(o, t, menu, i, depth, dom0, num0, reg0, dom1, num1, reg1, dom, menuNum, menuObjects);
        i := i + 1;
      }
    }

    /**
     * The `forEach` callback of lines 98-114 for the item at position `index`:
     * nothing for a leaf item; otherwise count the sub-menu, give it its id,
     * depth, state and toggle, register it, then discover below it.
     */
    method ScanItem(item: nat, index: nat, depth: nat)
      requires WellFormed(t) && Fits(t, dom) && item < |t|
      modifies this
      ensures Fits(t, dom) && events == old(events)
      ensures Walked(o, t, Branch(t, item, index, depth), old(dom), old(menuNum), old(menuObjects), dom, menuNum, menuObjects)
      decreases |t| - item, 1
    {
      var sub := FirstList(t, item);
      if sub.None? {
        assert Branch(t, item, index, depth) == [];
        return;
      }
      var f := Found(sub.value, item, depth, index);
      ghost var dom0, num0, reg0 := dom, menuNum, menuObjects;
      menuNum := menuNum + 1;
      dom := Register(dom, f, menuNum);
      menuObjects := menuObjects + [f.list];
      ghost var dom1, num1, reg1 := dom, menuNum, menuObjects;
      WalkedOne(o, t, f, dom0, num0, reg0);
      FindSubMenus(f.list, depth + 1);
      WalkedConcat(o, t, [f], Discover(t, f.list, depth + 1),
                   dom0, num0, reg0, dom1, num1, reg1, dom, menuNum, menuObjects);
      assert Branch(t, item, index, depth) == [f] + Discover(t, f.list, depth + 1);
    }

    /**
     * Lines 103-109 for one sub-menu `f.list` of item `f.item`, numbered `k`:
     * its id and depth, hidden unless the item shows activity, then its toggle.
     */
    method Register(st: DomState, f: Found, k: nat) returns (r: DomState)
      requires WellFormed(t) && Fits(t, st) && f.item < |t| && f.list < |t|
      ensures Fits(t, r) && r == FindStep(o, t, st, f, k)
    {
      r := st.(ids := st.ids[f.list := SubMenuId(o.id, k)], depth := st.depth[f.list := f.depth]);
      var active := HasClass(r.classes[f.item], o.activeClasses);
      if !active && !ActiveWithin(o, t, r, f.item) {
        r := SetHidden(o, r, f.list, true);
      }
      r := r.(toggles := r.toggles[f.list := View(o, r, f.list)]);
    }

    /**
     * `toggleMenu(menu, ..., hiddenState, triggerEvent, isRecursive)` (lines
     * 126-147): refresh the menu and its toggle, close the others in accordion
     * mode unless recursive, then dispatch the toggle event if asked.
     */
    method ToggleMenu(n: nat, hidden: bool, trigger: bool, recursive: bool)
      requires Covered() && n < |t| && n in dom.toggles
      modifies this
      ensures Covered() && dom.toggles.Keys == old(dom.toggles.Keys)
      ensures dom == ToggleSpec(o, t, old(dom), menuObjects, n, hidden, trigger, recursive).0
      ensures events == old(events) + ToggleSpec(o, t, old(dom), menuObjects, n, hidden, trigger, recursive).1
      ensures menuObjects == old(menuObjects) && menuNum == old(menuNum)
      decreases if recursive then 0 else 3
    {
      dom := Refresh(o, dom, n, hidden);
      ghost var s1, e1 := dom, events;
      ghost var acc := (s1, []);
      if !recursive && o.accordion {
        CloseOthersLoop(n);
        acc := CloseOthers(o, t, s1, menuObjects, n);
      }
      ghost var last := if trigger then [ToggleDone(n, DepthAttr(dom, n))] else [];
      if trigger {
        events := events + [ToggleDone(n, DepthAttr(dom, n))];
      }
      assert events == e1 + (acc.1 + last);
    }

    /** The accordion's `forEach` over the registered menus (lines 135-138), in registry order. */
    method CloseOthersLoop(n: nat)
      requires Covered() && n < |t| && n in dom.toggles
      modifies this
      ensures Covered() && dom.toggles.Keys == old(dom.toggles.Keys)
      ensures dom == CloseOthers(o, t, old(dom), menuObjects, n).0
      ensures events == old(events) + CloseOthers(o, t, old(dom), menuObjects, n).1
      ensures menuObjects == old(menuObjects) && menuNum == old(menuNum)
      decreases 2
    {
      ghost var s1, e1 := dom, events;
      var i := 0;
      assert menuObjects[..0] == [];
      while i < |menuObjects|
        invariant 0 <= i <= |menuObjects| && Covered() && dom.toggles.Keys == s1.toggles.Keys
        invariant Closing(o, t, s1, e1, menuObjects[..i], n, dom, events)
        invariant menuObjects == old(menuObjects) && menuNum == old(menuNum)
      {
        ghost var d1, v1 := dom, events;
        CloseTurn(menuObjects[i], n);
        ClosingNext(o, t, s1, e1, menuObjects, n, i, d1, v1, dom, events);
        i := i + 1;
      }
      assert menuObjects[..|menuObjects|] == menuObjects;
    }

    /**
     * The `forEach` callback of lines 136-137 for the registered menu `m`:
     * skip it when line 136 spares it, otherwise close it with a recursive
     * `toggleMenu` that still dispatches its event.
     */
    method CloseTurn(m: nat, n: nat)
      requires Covered() && m < |t| && n < |t|
      modifies this
      ensures Covered() && dom.toggles.Keys == old(dom.toggles.Keys)
      ensures dom == CloseStep(o, t, old(dom), m, n).0
      ensures events == old(events) + CloseStep(o, t, old(dom), m, n).1
      ensures menuObjects == old(menuObjects) && menuNum == old(menuNum)
      decreases 1
    {
      if dom.ids[m] == dom.ids[n] || IsHidden(o, dom, m) || Contains(t, m, n) || m !in dom.toggles {
        return;
      }
      CloseStepIsRecursiveToggle(o, t, dom, menuObjects, m, n);
      ToggleMenu(m, true, true, true);
    }

    /** The click handler (lines 174-177): toggle to the opposite of the current state. */
    method OnClick(n: nat)
      requires Valid() && n < |t| && n in dom.toggles
      modifies this
      ensures Valid()
      ensures dom == Click(o, t, old(dom), menuObjects, n).0
      ensures events == old(events) + Click(o, t, old(dom), menuObjects, n).1
      ensures menuObjects == old(menuObjects) && menuNum == old(menuNum)
    {
      ReadyOf(o, t, dom, menuObjects, n);
      ClickFlips(o, t, dom, menuObjects, n);
      ToggleMenu(n, !IsHidden(o, dom, n), true, false);
    }

    /** The keydown handler (lines 179-192): the default action is prevented exactly for the four handled keys. */
    method OnKeyDown(n: nat, key: int) returns (prevented: bool)
      requires Valid() && n < |t| && n in dom.toggles
      modifies this
      ensures Valid()
      ensures prevented <==> key in {KeyDown, KeyUp, KeyEnter, KeySpace}
      ensures dom == KeyPress(o, t, old(dom), menuObjects, n, key).0
      ensures events == old(events) + KeyPress(o, t, old(dom), menuObjects, n, key).1
      ensures menuObjects == old(menuObjects) && menuNum == old(menuNum)
    {
      ReadyOf(o, t, dom, menuObjects, n);
      KeyPressEffect(o, t, dom, menuObjects, n, key);
      KeyTable(key, IsHidden(o, dom, n));
      prevented := key in [KeyDown, KeyUp, KeyEnter, KeySpace];
      if prevented {
        var hidden := if key == KeyDown then false else if key == KeyUp then true else !IsHidden(o, dom, n);
        ToggleMenu(n, hidden, true, false);
      } else {
        assert events == old(events) + [];
      }
    }
  }
}
