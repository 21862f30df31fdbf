/**
 * Version 0.0.1 of the component (src/boringmenu.js): the same sub-menu walk
 * as the dist version, but each sub-menu's id is built from its item's
 * position among its siblings, only the `hidden` attribute is used, there is
 * no accordion and no toggle event, and `toggleMenu` hands the icon it put in
 * place back to the handler, which keeps it for the next call.
 *
 * The page is one value: each element's `hidden` attribute and `id`, the
 * toggle created for each sub-menu (a side table keyed by the list), and the
 * icon variable each toggle's listeners close over.
 */
module Legacy {
  import opened Wrappers
  import opened Strings
  import opened Dom
  import opened MenuTree
  import opened Options
  import MenuState

  // ---------------------------------------------------------------------
  // Options (lines 18-37)

  /** The options version 0.0.1 reads: the active item class, the two labels, the two icons and the id prefix. */
  datatype Settings = Settings(
    active: string,
    openLabel: string,
    closeLabel: string,
    openIcon: IconSpec,
    closeIcon: IconSpec,
    id: string)

  /** `'.' + menuItemActive` is a selector only for a single, non-empty class name. */
  predicate ClassName(c: string) {
    c != "" && forall k | 0 <= k < |c| :: c[k] != ' ' && c[k] != '.'
  }

  /** `labels[hidden ? 'menu.open' : 'menu.close']` (lines 118 and 150). */
  function Caption(s: Settings, hidden: bool): string {
    if hidden then s.openLabel else s.closeLabel
  }

  /** Line 193: icons are used only when both are set. */
  predicate IconsSet(s: Settings) {
    IconTruthy(s.openIcon) && IconTruthy(s.closeIcon)
  }

  /** Line 194: the icon option for a menu in state `hidden`. */
  function IconOption(s: Settings, hidden: bool): IconSpec {
    if hidden then s.openIcon else s.closeIcon
  }

  /**
   * `getMenuToggleIcon(menu, current)` (lines 191-205): when both icons are
   * set, a string becomes a new `<i>` with its class tokens (empty ones
   * skipped) and any other value is used as it is; otherwise the current
   * icon (or none) is kept.
   */
  function MenuToggleIcon(s: Settings, hidden: bool, current: Option<Icon>): (r: Option<Icon>)
    ensures IconsSet(s) ==> r.Some?
    ensures !IconsSet(s) ==> r == current
  {
    if IconsSet(s) then
      match IconOption(s, hidden)
      case IconString(c) => Some(IconElement(NonEmpty(Split(c, ' '))))
      case spec => Some(IconValue(spec))
    else current
  }

  /**
   * `getMenuToggleIcon` as written: line 200 adds every token of the split,
   * and `classList.add('')`, for a double, leading or trailing space, throws.
   */
  function MenuToggleIconAsWritten(s: Settings, hidden: bool, current: Option<Icon>): Result<Option<Icon>> {
    if IconsSet(s) then
      match IconOption(s, hidden)
      case IconString(c) =>
        if "" in Split(c, ' ') then Failure("SyntaxError: an empty class token")
        else Success(Some(IconElement(Split(c, ' '))))
      case spec => Success(Some(IconValue(spec)))
    else Success(current)
  }

  /** The as-written icon throws exactly for a set string option with an empty token, and otherwise is the corrected icon. */
  lemma MenuToggleIconAgrees(s: Settings, hidden: bool, current: Option<Icon>)
    ensures MenuToggleIconAsWritten(s, hidden, current).Failure? <==>
              IconsSet(s) && IconOption(s, hidden).IconString? && "" in Split(IconOption(s, hidden).s, ' ')
    ensures MenuToggleIconAsWritten(s, hidden, current).Success? ==>
              MenuToggleIconAsWritten(s, hidden, current).value == MenuToggleIcon(s, hidden, current)
  {
    var spec := IconOption(s, hidden);
    if IconsSet(s) && spec.IconString? && "" !in Split(spec.s, ' ') {
      NonEmptyKeeps(Split(spec.s, ' '));
    }
  }

  /** The icon follows the state alone once both icons are set, whatever icon was there before. */
  lemma MenuToggleIconChoice(s: Settings, hidden: bool, current: Option<Icon>)
    ensures MenuToggleIcon(s, hidden, None).Some? <==> IconsSet(s)
    ensures IconsSet(s) ==> MenuToggleIcon(s, hidden, current) == MenuToggleIcon(s, hidden, None)
    ensures IconsSet(s) && IconOption(s, hidden).IconString? ==>
              MenuToggleIcon(s, hidden, current) == Some(IconElement(NonEmpty(Split(IconOption(s, hidden).s, ' '))))
    ensures IconsSet(s) && !IconOption(s, hidden).IconString? ==>
              MenuToggleIcon(s, hidden, current) == Some(IconValue(IconOption(s, hidden)))
  {
  }

  // ---------------------------------------------------------------------
  // The page

  datatype Page = Page(
    hidden: seq<bool>,
    ids: seq<string>,
    toggles: map<nat, MenuState.ToggleView>,
    captured: map<nat, Option<Icon>>)

  /** The per-element parts of the page cover exactly the nodes of `t`. */
  predicate Fits(t: Tree, p: Page) {
    |p.hidden| == |t| && |p.ids| == |t|
  }

  /** The page as its markup gives it: no toggles yet. */
  function InitialPage(t: Tree): (p: Page)
    ensures Fits(t, p) && p.toggles == map[] && p.captured == map[]
    ensures forall i | 0 <= i < |t| :: p.hidden[i] == t[i].hidden && p.ids[i] == t[i].id
  {
    Page(seq(|t|, i requires 0 <= i < |t| => t[i].hidden), seq(|t|, i requires 0 <= i < |t| => t[i].id), map[], map[])
  }

  /** Node `i` is the same in both pages: attributes, toggle and the icon its listeners hold. */
  predicate Same(t: Tree, a: Page, b: Page, i: nat) {
    && i < |t| && Fits(t, a) && Fits(t, b)
    && a.hidden[i] == b.hidden[i] && a.ids[i] == b.ids[i]
    && (i in a.toggles <==> i in b.toggles) && (i in a.toggles ==> a.toggles[i] == b.toggles[i])
    && (i in a.captured <==> i in b.captured) && (i in a.captured ==> a.captured[i] == b.captured[i])
  }

  /**
   * The toggle `getMenuToggle(list)` (lines 135-182) builds for a list in the
   * current page: `aria-controls` the list's id, `aria-expanded` its state,
   * the label and the icon for that state.
   */
  function View(s: Settings, p: Page, n: nat): MenuState.ToggleView
    requires n < |p.hidden| && n < |p.ids|
  {
    MenuState.ToggleView(p.ids[n], !p.hidden[n], Caption(s, p.hidden[n]), MenuToggleIcon(s, p.hidden[n], None))
  }

  /** The toggle of `n` shows its list's id, state, label and icon, and its listeners hold the icon it shows. */
  predicate Shows(s: Settings, p: Page, n: nat) {
    && n in p.toggles && n < |p.hidden| && n < |p.ids| && p.toggles[n] == View(s, p, n)
    && n in p.captured && p.captured[n] == p.toggles[n].icon
  }

  /** Every toggle shows its list. */
  predicate Consistent(s: Settings, p: Page) {
    forall n | n in p.toggles :: Shows(s, p, n)
  }

  // ---------------------------------------------------------------------
  // One discovered sub-menu (lines 86-98)

  /** `list.querySelectorAll('.' + active).length`: some element inside the list is active. */
  predicate ActiveBelow(s: Settings, t: Tree, list: nat)
    requires WellFormed(t) && list < |t|
  {
    exists j | 0 <= j < |PreOrder(t, list)| :: s.active in t[PreOrder(t, list)[j]].classes
  }

  /** Line 93: a sub-menu is hidden when neither its item nor anything inside the list is active. */
  predicate StartsHidden(s: Settings, t: Tree, f: Found)
    requires WellFormed(t) && f.item < |t| && f.list < |t|
  {
    s.active !in t[f.item].classes && !ActiveBelow(s, t, f.list)
  }

  /** Lines 90-98 for the sub-menu `f.list`: its id from the item's position, hidden unless active, then its toggle. */
  function Step(s: Settings, t: Tree, p: Page, f: Found): (r: Page)
    requires WellFormed(t) && Fits(t, p) && f.item < |t| && f.list < |t|
    ensures Fits(t, r)
  {
    var p1 := p.(ids := p.ids[f.list := SubMenuId(s.id, f.index)]);
    var p2 := if StartsHidden(s, t, f) then p1.(hidden := p1.hidden[f.list := true]) else p1;
    var v := View(s, p2, f.list);
    p2.(toggles := p2.toggles[f.list := v], captured := p2.captured[f.list := v.icon])
  }

  /** The page after the steps for the sub-menus `fs`; a step outside the tree changes nothing. */
  function Walk(s: Settings, t: Tree, p: Page, fs: seq<Found>): Page
    decreases |fs|
  {
    if fs == [] then p
    else
      var q := Walk(s, t, p, fs[..|fs| - 1]);
      var f := fs[|fs| - 1];
      if WellFormed(t) && Fits(t, q) && f.item < |t| && f.list < |t| then Step(s, t, q, f) else q
  }

  /** The page once the constructor is done with the menu `root` (lines 68 and 82-103). */
  function Initialised(s: Settings, t: Tree, root: nat): Page
    requires WellFormed(t) && root < |t|
  {
    Walk(s, t, InitialPage(t), Discover(t, root, 0))
  }

  lemma {:induction false} WalkFits(s: Settings, t: Tree, p: Page, fs: seq<Found>)
    requires WellFormed(t) && Fits(t, p) && Bounded(t, fs)
    ensures Fits(t, Walk(s, t, p, fs))
    decreases |fs|
  {
    if fs != [] {
      WalkFits(s, t, p, fs[..|fs| - 1]);
    }
  }

  lemma WalkLast(s: Settings, t: Tree, p: Page, fs: seq<Found>)
    requires WellFormed(t) && Fits(t, p) && Bounded(t, fs) && fs != []
    ensures Fits(t, Walk(s, t, p, fs[..|fs| - 1]))
    ensures Walk(s, t, p, fs) == Step(s, t, Walk(s, t, p, fs[..|fs| - 1]), fs[|fs| - 1])
  {
    WalkFits(s, t, p, fs[..|fs| - 1]);
  }

  /** The walk over `a + b` is the walk over `a`, then over `b`. */
  lemma {:induction false} WalkConcat(s: Settings, t: Tree, p: Page, a: seq<Found>, b: seq<Found>)
    ensures Walk(s, t, p, a + b) == Walk(s, t, Walk(s, t, p, a), b)
    decreases |b|
  {
    if b == [] {
      assert a + b == a;
    } else {
      var b' := b[..|b| - 1];
      WalkConcat(s, t, p, a, b');
      assert (a + b)[..|a + b| - 1] == a + b';
      assert (a + b)[|a + b| - 1] == b[|b| - 1];
      assert Walk(s, t, p, a + b') == Walk(s, t, Walk(s, t, p, a), b');
    }
  }

  /** A step touches its own list and nothing else. */
  lemma StepFrame(s: Settings, t: Tree, p: Page, f: Found, i: nat)
    requires WellFormed(t) && Fits(t, p) && f.item < |t| && f.list < |t| && i < |t| && i != f.list
    ensures Same(t, Step(s, t, p, f), p, i)
  {
  }

  /** Each step leaves every toggle consistent with its list, the new one included. */
  lemma StepConsistent(s: Settings, t: Tree, p: Page, f: Found)
    requires WellFormed(t) && Fits(t, p) && f.item < |t| && f.list < |t| && Consistent(s, p)
    ensures Consistent(s, Step(s, t, p, f))
  {
    var r := Step(s, t, p, f);
    forall n | n in r.toggles
      ensures Shows(s, r, n)
    {
      if n != f.list {
        StepFrame(s, t, p, f, n);
      }
    }
  }

  lemma {:induction false} WalkConsistent(s: Settings, t: Tree, p: Page, fs: seq<Found>)
    requires WellFormed(t) && Fits(t, p) && Bounded(t, fs) && Consistent(s, p)
    ensures Consistent(s, Walk(s, t, p, fs))
    decreases |fs|
  {
    if fs != [] {
      WalkLast(s, t, p, fs);
      WalkConsistent(s, t, p, fs[..|fs| - 1]);
      StepConsistent(s, t, Walk(s, t, p, fs[..|fs| - 1]), fs[|fs| - 1]);
    }
  }

  /** Elements that are not among the found lists keep their markup. */
  lemma {:induction false} WalkFrame(s: Settings, t: Tree, p: Page, fs: seq<Found>, i: nat)
    requires WellFormed(t) && Fits(t, p) && Bounded(t, fs) && i < |t|
    requires forall k | 0 <= k < |fs| :: fs[k].list != i
    ensures Same(t, Walk(s, t, p, fs), p, i)
    decreases |fs|
  {
    if fs != [] {
      WalkLast(s, t, p, fs);
      WalkFrame(s, t, p, fs[..|fs| - 1], i);
      StepFrame(s, t, Walk(s, t, p, fs[..|fs| - 1]), fs[|fs| - 1], i);
    }
  }

  /** The `k`-th list keeps the id and state its own step gave it when no other step touches it. */
  lemma {:induction false} WalkAt(s: Settings, t: Tree, p: Page, fs: seq<Found>, k: nat)
    requires WellFormed(t) && Fits(t, p) && Bounded(t, fs) && k < |fs|
    requires forall j | 0 <= j < |fs| && j != k :: fs[j].list != fs[k].list
    ensures Fits(t, Walk(s, t, p, fs))
    ensures Walk(s, t, p, fs).ids[fs[k].list] == SubMenuId(s.id, fs[k].index)
    ensures Walk(s, t, p, fs).hidden[fs[k].list] == (p.hidden[fs[k].list] || StartsHidden(s, t, fs[k]))
    decreases |fs|
  {
    WalkLast(s, t, p, fs);
    WalkFits(s, t, p, fs);
    var q := fs[..|fs| - 1];
    if k < |q| {
      WalkAt(s, t, p, q, k);
      StepFrame(s, t, Walk(s, t, p, q), fs[|fs| - 1], fs[k].list);
    } else {
      assert forall j | 0 <= j < |q| :: q[j] == fs[j];
      WalkFrame(s, t, p, q, fs[k].list);
    }
  }

  /** The lists with a toggle are those that had one and the lists found. */
  lemma {:induction false} WalkToggled(s: Settings, t: Tree, p: Page, fs: seq<Found>)
    requires WellFormed(t) && Fits(t, p) && Bounded(t, fs)
    ensures forall n :: n in Walk(s, t, p, fs).toggles <==> n in p.toggles || Listed(fs, n)
    decreases |fs|
  {
    if fs != [] {
      WalkLast(s, t, p, fs);
      WalkToggled(s, t, p, fs[..|fs| - 1]);
      forall n ensures Listed(fs, n) <==> Listed(fs[..|fs| - 1], n) || fs[|fs| - 1].list == n {
        ListedSnoc(fs, n);
      }
    }
  }

  // ---------------------------------------------------------------------
  // What the constructor leaves on the page

  /** Line 90: each sub-menu's id is the prefix, a dash and its item's position among its siblings. */
  lemma InitialisedIds(s: Settings, t: Tree, root: nat)
    requires WellFormed(t) && root < |t|
    ensures Fits(t, Initialised(s, t, root))
    ensures forall k | 0 <= k < |Discover(t, root, 0)| ::
              && Discover(t, root, 0)[k].list < |t|
              && Initialised(s, t, root).ids[Discover(t, root, 0)[k].list]
                   == SubMenuId(s.id, Discover(t, root, 0)[k].index)
  {
    var fs := Discover(t, root, 0);
    DiscoverBounds(t, root, 0);
    DiscoverNoRepeats(t, root, 0);
    WalkFits(s, t, InitialPage(t), fs);
    forall k | 0 <= k < |fs|
      ensures Initialised(s, t, root).ids[fs[k].list] == SubMenuId(s.id, fs[k].index)
    {
      WalkAt(s, t, InitialPage(t), fs, k);
    }
  }

  /**
   * Lines 93-95: a sub-menu is hidden after the walk exactly when its markup
   * hid it, or neither its item nor anything inside it is active; the walk
   * never shows a list.
   */
  lemma InitialisedHidden(s: Settings, t: Tree, root: nat)
    requires WellFormed(t) && root < |t|
    ensures Fits(t, Initialised(s, t, root))
    ensures forall k | 0 <= k < |Discover(t, root, 0)| ::
              && Discover(t, root, 0)[k].item < |t| && Discover(t, root, 0)[k].list < |t|
              && Initialised(s, t, root).hidden[Discover(t, root, 0)[k].list]
                   == (t[Discover(t, root, 0)[k].list].hidden || StartsHidden(s, t, Discover(t, root, 0)[k]))
  {
    var fs := Discover(t, root, 0);
    DiscoverBounds(t, root, 0);
    DiscoverNoRepeats(t, root, 0);
    WalkFits(s, t, InitialPage(t), fs);
    forall k | 0 <= k < |fs|
      ensures Initialised(s, t, root).hidden[fs[k].list] == (t[fs[k].list].hidden || StartsHidden(s, t, fs[k]))
    {
      WalkAt(s, t, InitialPage(t), fs, k);
    }
  }

  /**
   * Lines 86-101: the lists with a toggle are exactly the lists found, every
   * toggle agrees with its list, and every other element keeps its markup.
   */
  lemma InitialisedToggles(s: Settings, t: Tree, root: nat)
    requires WellFormed(t) && root < |t|
    ensures Fits(t, Initialised(s, t, root)) && Consistent(s, Initialised(s, t, root))
    ensures forall n :: n in Initialised(s, t, root).toggles <==> Listed(Discover(t, root, 0), n)
    ensures forall i | 0 <= i < |t| && !Listed(Discover(t, root, 0), i) ::
              Initialised(s, t, root).hidden[i] == t[i].hidden && Initialised(s, t, root).ids[i] == t[i].id
  {
    var fs := Discover(t, root, 0);
    DiscoverBounds(t, root, 0);
    WalkFits(s, t, InitialPage(t), fs);
    WalkConsistent(s, t, InitialPage(t), fs);
    WalkToggled(s, t, InitialPage(t), fs);
    forall i | 0 <= i < |t| && !Listed(fs, i)
      ensures Initialised(s, t, root).hidden[i] == t[i].hidden && Initialised(s, t, root).ids[i] == t[i].id
    {
      WalkFrame(s, t, InitialPage(t), fs, i);
    }
  }

  /** The constructor leaves every toggle consistent with its list. */
  lemma InitialisedConsistent(s: Settings, t: Tree, root: nat)
    requires WellFormed(t) && root < |t|
    ensures Fits(t, Initialised(s, t, root)) && Consistent(s, Initialised(s, t, root))
  {
    DiscoverBounds(t, root, 0);
    WalkFits(s, t, InitialPage(t), Discover(t, root, 0));
    WalkConsistent(s, t, InitialPage(t), Discover(t, root, 0));
  }

  /** Where a found list sits: its item is the `index`-th child item of the item's parent. */
  lemma PlacedIndex(t: Tree, menu: nat, depth: nat, fs: seq<Found>, k: nat)
    requires WellFormed(t) && menu < |t| && k < |fs| && Placed(t, menu, depth, fs, k)
    ensures fs[k].item < |t| && t[fs[k].item].parent.Some? && t[fs[k].item].parent.value < |t|
    ensures var up := t[fs[k].item].parent.value;
            fs[k].index < |ChildItems(t, up)| && ChildItems(t, up)[fs[k].index] == fs[k].item
  {
  }

  /** Sub-menus of items under the same list get different ids: ids are distinct within a level. */
  lemma SiblingIdsDistinct(s: Settings, t: Tree, root: nat, j: nat, k: nat)
    requires WellFormed(t) && root < |t|
    requires j < |Discover(t, root, 0)| && k < |Discover(t, root, 0)| && j != k
    ensures Fits(t, Initialised(s, t, root))
    ensures Discover(t, root, 0)[j].item < |t| && Discover(t, root, 0)[k].item < |t|
    ensures Discover(t, root, 0)[j].list < |t| && Discover(t, root, 0)[k].list < |t|
    ensures t[Discover(t, root, 0)[j].item].parent == t[Discover(t, root, 0)[k].item].parent ==>
              Initialised(s, t, root).ids[Discover(t, root, 0)[j].list]
                != Initialised(s, t, root).ids[Discover(t, root, 0)[k].list]
  {
    var fs := Discover(t, root, 0);
    DiscoverBounds(t, root, 0);
    InitialisedIds(s, t, root);
    if t[fs[j].item].parent != t[fs[k].item].parent {
      return;
    }
    DiscoverPlaced(t, root, 0);
    DiscoverNoRepeats(t, root, 0);
    PlacedIndex(t, root, 0, fs, j);
    PlacedIndex(t, root, 0, fs, k);
    assert fs[j].item != fs[k].item;
    assert fs[j].index != fs[k].index;
    SubMenuIdInjective(s.id, fs[j].index, fs[k].index);
  }

  /** A menu with one sub-menu nested in another. */
  function TwoLevels(): Tree {
    [ Node(UL, None, [1], {}, None, false, "", true),
      Node(LI, Some(0), [2], {}, None, false, "", false),
      Node(UL, Some(1), [3], {}, None, false, "", false),
      Node(LI, Some(2), [4], {}, None, false, "", false),
      Node(UL, Some(3), [], {}, None, false, "", false) ]
  }

  lemma TwoLevelsWellFormed()
    ensures WellFormed(TwoLevels())
  {
    var t := TwoLevels();
    assert NodeOk(t, 0) && NodeOk(t, 1) && NodeOk(t, 2) && NodeOk(t, 3) && NodeOk(t, 4);
    assert InParentChildren(t, 0) && InParentChildren(t, 1) && InParentChildren(t, 2) && InParentChildren(t, 3) && InParentChildren(t, 4);
  }

  /** The descendants of the two items, in document order. */
  lemma TwoLevelsOrder()
    ensures WellFormed(TwoLevels())
    ensures PreOrder(TwoLevels(), 3) == [4] && PreOrder(TwoLevels(), 1) == [2, 3, 4]
  {
    var t := TwoLevels();
    TwoLevelsWellFormed();
    assert PreOrder(t, 4) == [];
    assert PreOrder(t, 3) == [4];
    assert PreOrder(t, 2) == [3, 4];
  }

  /** The shape of `TwoLevels` as the walk queries it. */
  lemma TwoLevelsShape()
    ensures WellFormed(TwoLevels())
    ensures ChildItems(TwoLevels(), 0) == [1] && FirstList(TwoLevels(), 1) == Some(2)
    ensures ChildItems(TwoLevels(), 2) == [3] && FirstList(TwoLevels(), 3) == Some(4)
    ensures ChildItems(TwoLevels(), 4) == []
  {
    TwoLevelsOrder();
  }

  /** The walk over `TwoLevels` finds list 2 as the first item's sub-menu, then list 4 inside it, also first. */
  lemma TwoLevelsDiscover()
    ensures WellFormed(TwoLevels())
    ensures Discover(TwoLevels(), 0, 0) == [Found(2, 1, 0, 0), Found(4, 3, 1, 0)]
  {
    var t := TwoLevels();
    TwoLevelsShape();
    assert Discover(t, 4, 2) == [];
    assert Discover(t, 2, 1) == [Found(4, 3, 1, 0)] by {
      assert DiscoverItems(t, 2, 1, 1) == DiscoverItems(t, 2, 0, 1) + Branch(t, 3, 0, 1);
    }
    assert DiscoverItems(t, 0, 1, 0) == DiscoverItems(t, 0, 0, 0) + Branch(t, 1, 0, 0);
  }

  /**
   * Ids repeat across levels: in `TwoLevels` both sub-menus are the first
   * (position 0) of their level, so both get `<id>-0` and both toggles'
   * `aria-controls` name the same id.
   */
  lemma IdsRepeatAcrossLevels(s: Settings)
    ensures WellFormed(TwoLevels())
    ensures var p := Initialised(s, TwoLevels(), 0);
            && 2 in p.toggles && 4 in p.toggles
            && p.toggles[2].controls == p.toggles[4].controls == SubMenuId(s.id, 0)
  {
    var t := TwoLevels();
    TwoLevelsDiscover();
    var fs := Discover(t, 0, 0);
    InitialisedIds(s, t, 0);
    InitialisedToggles(s, t, 0);
    assert fs[0].list == 2 && fs[1].list == 4;
    assert Listed(fs, 2) && Listed(fs, 4);
  }

  /**
   * Lines 83-101: every found list owns its toggle, found once, and every
   * child item of a found list (or of the menu) that holds a list has that
   * list found.
   */
  lemma OneTogglePerSubMenu(t: Tree, root: nat)
    requires WellFormed(t) && root < |t|
    ensures Distinct(Lists(Discover(t, root, 0)))
    ensures forall i | 0 <= i < |ChildItems(t, root)| && FirstList(t, ChildItems(t, root)[i]).Some? ::
              Listed(Discover(t, root, 0), FirstList(t, ChildItems(t, root)[i]).value)
  {
    var fs := Discover(t, root, 0);
    DiscoverNoRepeats(t, root, 0);
    var ls := Lists(fs);
    forall a, b | 0 <= a < b < |ls| ensures ls[a] != ls[b] {
      ListsAt(fs, a);
      ListsAt(fs, b);
    }
    DiscoverCovers(t, root, 0);
    forall i | 0 <= i < |ChildItems(t, root)| && FirstList(t, ChildItems(t, root)[i]).Some?
      ensures Listed(fs, FirstList(t, ChildItems(t, root)[i]).value)
    {
      var f := Found(FirstList(t, ChildItems(t, root)[i]).value, ChildItems(t, root)[i], 0, i);
      assert f in fs;
      var k :| 0 <= k < |fs| && fs[k] == f;
      assert fs[k].list == f.list;
    }
  }

  /** The child items of a found list that hold a list have that list found too, right after it. */
  lemma NestedToggled(t: Tree, root: nat, k: nat)
    requires WellFormed(t) && root < |t| && k < |Discover(t, root, 0)|
    ensures Discover(t, root, 0)[k].list < |t|
    ensures var u := Discover(t, root, 0)[k].list;
            forall i | 0 <= i < |ChildItems(t, u)| && FirstList(t, ChildItems(t, u)[i]).Some? ::
              Listed(Discover(t, root, 0), FirstList(t, ChildItems(t, u)[i]).value)
  {
    var fs := Discover(t, root, 0);
    DiscoverNested(t, root, 0, k);
    var u := fs[k].list;
    var d := Discover(t, u, fs[k].depth + 1);
    DiscoverCovers(t, u, fs[k].depth + 1);
    forall i | 0 <= i < |ChildItems(t, u)| && FirstList(t, ChildItems(t, u)[i]).Some?
      ensures Listed(fs, FirstList(t, ChildItems(t, u)[i]).value)
    {
      FollowsListed(fs, k, d, Found(FirstList(t, ChildItems(t, u)[i]).value, ChildItems(t, u)[i], fs[k].depth + 1, i));
    }
  }

  /** What is found inside a found list is found by the whole walk. */
  lemma FollowsListed(fs: seq<Found>, k: nat, d: seq<Found>, f: Found)
    requires Follows(fs, k, d) && f in d
    ensures Listed(fs, f.list)
  {
    var m :| 0 <= m < |d| && d[m] == f;
    assert fs[k + 1 + m] == f;
  }

  // ---------------------------------------------------------------------
  // Toggling (lines 115-127, 160-179)

  /**
   * `toggleMenu(menu, toggle, text, current, hidden)` (lines 115-127): the
   * page after it and the icon it returns. The list takes the state, the
   * toggle its `aria-expanded` and label; when an icon was passed it is
   * replaced by the icon for the new state, which is returned, and otherwise
   * the icon passed is returned.
   */
  function ToggleMenuSpec(s: Settings, p: Page, n: nat, current: Option<Icon>, hidden: bool): (r: (Page, Option<Icon>))
    requires n in p.toggles && n < |p.hidden|
    ensures |r.0.hidden| == |p.hidden| && r.0.ids == p.ids && r.0.captured == p.captured
    ensures r.0.toggles.Keys == p.toggles.Keys
  {
    var v := p.toggles[n];
    var icon := if current.Some? then MenuToggleIcon(s, hidden, current) else current;
    var shown := if current.Some? then icon else v.icon;
    (p.(hidden := p.hidden[n := hidden], toggles := p.toggles[n := MenuState.ToggleView(v.controls, !hidden, Caption(s, hidden), shown)]),
     icon)
  }

  /** A toggle's listener: `toggleMenu` with the icon it holds, then it keeps the icon returned unless that is `null`. */
  function Handle(s: Settings, p: Page, n: nat, hidden: bool): Page
    requires n in p.toggles && n in p.captured && n < |p.hidden|
  {
    var (q, icon) := ToggleMenuSpec(s, p, n, p.captured[n], hidden);
    if icon.Some? then q.(captured := q.captured[n := icon]) else q
  }

  /** The click listener (lines 160-165): flip the list's state. */
  function Click(s: Settings, p: Page, n: nat): Page
    requires n in p.toggles && n in p.captured && n < |p.hidden|
  {
    Handle(s, p, n, !p.hidden[n])
  }

  /** The keydown listener (lines 168-179): the page after it, and whether the default action was prevented. */
  function KeyPress(s: Settings, p: Page, n: nat, key: int): (Page, bool)
    requires n in p.toggles && n in p.captured && n < |p.hidden|
  {
    match KeyHiddenState(key, p.hidden[n])
    case None => (p, false)
    case Some(h) => (Handle(s, p, n, h), true)
  }

  /** A listener on a consistent page: the list takes the state and its toggle and held icon are rebuilt for it. */
  lemma HandleRebuilds(t: Tree, s: Settings, p: Page, n: nat, hidden: bool)
    requires Fits(t, p) && n < |t| && Shows(s, p, n)
    ensures var q := p.(hidden := p.hidden[n := hidden]);
            var v := View(s, q, n);
            Handle(s, p, n, hidden) == q.(toggles := q.toggles[n := v], captured := q.captured[n := v.icon])
  {
    var q := p.(hidden := p.hidden[n := hidden]);
    MenuToggleIconChoice(s, hidden, p.captured[n]);
    MenuToggleIconChoice(s, p.hidden[n], None);
    if !IconsSet(s) {
      assert p.captured[n] == None;
      assert q.captured[n := None] == q.captured;
    }
  }

  /** A listener leaves every toggle consistent with its list (label, `aria-expanded`, and the icon, also held by the listeners). */
  lemma HandleConsistent(t: Tree, s: Settings, p: Page, n: nat, hidden: bool)
    requires Fits(t, p) && Consistent(s, p) && n < |t| && n in p.toggles
    ensures Fits(t, Handle(s, p, n, hidden)) && Consistent(s, Handle(s, p, n, hidden))
    ensures Handle(s, p, n, hidden).toggles.Keys == p.toggles.Keys && Handle(s, p, n, hidden).ids == p.ids
  {
    HandleRebuilds(t, s, p, n, hidden);
    var r := Handle(s, p, n, hidden);
    forall m | m in r.toggles
      ensures Shows(s, r, m)
    {
      if m != n {
        assert r.hidden[m] == p.hidden[m];
      }
    }
  }

  /** A listener sets the list's state and changes no other element. */
  lemma HandleSets(t: Tree, s: Settings, p: Page, n: nat, hidden: bool)
    requires Fits(t, p) && Consistent(s, p) && n < |t| && n in p.toggles
    ensures Fits(t, Handle(s, p, n, hidden)) && Handle(s, p, n, hidden).hidden[n] == hidden
    ensures forall i | 0 <= i < |t| && i != n :: Same(t, Handle(s, p, n, hidden), p, i)
  {
    HandleRebuilds(t, s, p, n, hidden);
  }

  /** Two clicks restore the page exactly. */
  lemma ClickTwice(t: Tree, s: Settings, p: Page, n: nat)
    requires Fits(t, p) && n < |t| && Shows(s, p, n)
    ensures n in Click(s, p, n).toggles && n in Click(s, p, n).captured && n < |Click(s, p, n).hidden|
    ensures Click(s, Click(s, p, n), n) == p
  {
    var h := p.hidden[n];
    var q1 := p.(hidden := p.hidden[n := !h]);
    var v1 := View(s, q1, n);
    var c1 := q1.(toggles := q1.toggles[n := v1], captured := q1.captured[n := v1.icon]);
    HandleRebuilds(t, s, p, n, !h);
    assert Click(s, p, n) == c1;
    var q2 := c1.(hidden := c1.hidden[n := h]);
    assert q2.hidden == p.hidden;
    var v2 := View(s, q2, n);
    assert v2 == p.toggles[n];
    var c2 := q2.(toggles := q2.toggles[n := v2], captured := q2.captured[n := v2.icon]);
    HandleRebuilds(t, s, c1, n, h);
    assert Click(s, c1, n) == c2;
    assert c2.toggles == p.toggles;
    assert c2.captured == p.captured;
  }

  /** Down shows, Up hides, Enter and Space flip, and every other key changes nothing. */
  lemma KeyPressEffect(t: Tree, s: Settings, p: Page, n: nat, key: int)
    requires Fits(t, p) && Consistent(s, p) && n < |t| && n in p.toggles
    ensures KeyPress(s, p, n, key).1 <==> key in {KeyDown, KeyUp, KeyEnter, KeySpace}
    ensures !KeyPress(s, p, n, key).1 ==> KeyPress(s, p, n, key).0 == p
    ensures key == KeyDown ==> KeyPress(s, p, n, key).0 == Handle(s, p, n, false)
    ensures key == KeyUp ==> KeyPress(s, p, n, key).0 == Handle(s, p, n, true)
    ensures key in {KeyEnter, KeySpace} ==> KeyPress(s, p, n, key).0 == Click(s, p, n)
  {
    KeyTable(key, p.hidden[n]);
  }

  // ---------------------------------------------------------------------
  // The object

  /** The walk over `fs` took the page from `p0` to `p` and inserted a toggle before each list found. */
  ghost predicate Walked(s: Settings, t: Tree, fs: seq<Found>, p0: Page, b0: seq<nat>, p: Page, b: seq<nat>) {
    p == Walk(s, t, p0, fs) && b == b0 + Lists(fs)
  }

  lemma WalkedConcat(s: Settings, t: Tree, a: seq<Found>, c: seq<Found>,
                     p0: Page, b0: seq<nat>, p1: Page, b1: seq<nat>, p2: Page, b2: seq<nat>)
    requires Walked(s, t, a, p0, b0, p1, b1) && Walked(s, t, c, p1, b1, p2, b2)
    ensures Walked(s, t, a + c, p0, b0, p2, b2)
  {
    assert p2 == Walk(s, t, p0, a + c) by {
      WalkConcat(s, t, p0, a, c);
    }
    assert b2 == b0 + Lists(a + c) by {
      ListsConcat(a, c);
      assert b2 == b0 + (Lists(a) + Lists(c));
    }
  }

  lemma ScanNext(s: Settings, t: Tree, menu: nat, i: nat, depth: nat,
                 p0: Page, b0: seq<nat>, p1: Page, b1: seq<nat>, p2: Page, b2: seq<nat>)
    requires WellFormed(t) && menu < |t| && i < |ChildItems(t, menu)|
    requires Walked(s, t, DiscoverItems(t, menu, i, depth), p0, b0, p1, b1)
    requires Walked(s, t, Branch(t, ChildItems(t, menu)[i], i, depth), p1, b1, p2, b2)
    ensures Walked(s, t, DiscoverItems(t, menu, i + 1, depth), p0, b0, p2, b2)
  {
    WalkedConcat(s, t, DiscoverItems(t, menu, i, depth), Branch(t, ChildItems(t, menu)[i], i, depth),
                 p0, b0, p1, b1, p2, b2);
    assert DiscoverItems(t, menu, i + 1, depth)
        == DiscoverItems(t, menu, i, depth) + Branch(t, ChildItems(t, menu)[i], i, depth);
  }

  lemma WalkedOne(s: Settings, t: Tree, f: Found, p0: Page, b0: seq<nat>)
    requires WellFormed(t) && Fits(t, p0) && f.item < |t| && f.list < |t|
    ensures Walked(s, t, [f], p0, b0, Step(s, t, p0, f), b0 + [f.list])
  {
    assert [f][..0] == [];
    assert Lists([f]) == [f.list] by {
      ListsCons(f, []);
    }
  }

  class Menu {
    /** The document and the options, fixed once the object exists. */
    const t: Tree
    const s: Settings
    /** `this.menu`: the element matching the menu selector, if any. */
    const root: Option<nat>
    /** The state of the page. */
    var page: Page
    /** The toggle buttons inserted, each named by the list it was inserted before. */
    var buttons: seq<nat>
    /** The custom events dispatched so far. */
    var events: seq<MenuState.Event>

    /** What every listener keeps true of the page. */
    ghost predicate Valid()
      reads this
    {
      WellFormed(t) && Fits(t, page) && Consistent(s, page)
    }

    /**
     * Lines 40-75: with no menu, only the init event on the document;
     * otherwise the sub-menus and their toggles, then the init event on the
     * menu.
     */
    constructor (t: Tree, s: Settings, root: Option<nat>)
      requires WellFormed(t) && ClassName(s.active)
      requires root.Some? ==> root.value < |t| && t[root.value].matchesMenu
      ensures this.t == t && this.s == s && this.root == root && Valid()
      ensures root.None? ==> page == InitialPage(t) && buttons == [] && events == [MenuState.InitDone(true)]
      ensures root.Some? ==>
                && page == Initialised(s, t, root.value)
                && buttons == Lists(Discover(t, root.value, 0))
                && events == [MenuState.InitDone(false)]
    {
      this.t := t;
      this.s := s;
      this.root := root;
      page := InitialPage(t);
      buttons := [];
      events := [];
      new;
      if root.None? {
        events := [MenuState.InitDone(true)];
        return;
      }
      FindSubMenus(root.value, 0);
      events := events + [MenuState.InitDone(false)];
      assert buttons == Lists(Discover(t, root.value, 0));
      InitialisedConsistent(s, t, root.value);
    }

    /** `findSubMenus(menu)` (lines 82-103): the `forEach` over the child items of `menu`, with their positions. */
    method FindSubMenus(menu: nat, ghost depth: nat)
      requires WellFormed(t) && Fits(t, page) && menu < |t|
      modifies this
      ensures Fits(t, page) && events == old(events)
      ensures Walked(s, t, Discover(t, menu, depth), old(page), old(buttons), page, buttons)
      decreases |t| - menu, 0
    {
      var items := ChildItems(t, menu);
      ghost var p0, b0 := page, buttons;
      var i := 0;
      assert Walked(s, t, DiscoverItems(t, menu, 0, depth), p0, b0, page, buttons);
      while i < |items|
        invariant 0 <= i <= |items| && Fits(t, page) && events == old(events)
        invariant Walked(s, t, DiscoverItems(t, menu, i, depth), p0, b0, page, buttons)
      {
        ghost var p1, b1 := page, buttons;
        ScanItem(items[i], i, depth);
        ScanNext(s, t, menu, i, depth, p0, b0, p1, b1, page, buttons);
        i := i + 1;
      }
    }

    /**
     * The `forEach` callback of lines 83-102 for the item at position
     * `index`: nothing for a leaf item; otherwise the sub-menu's id, its
     * state, its toggle inserted before it, then the walk below it.
     */
    method ScanItem(item: nat, index: nat, ghost depth: nat)
      requires WellFormed(t) && Fits(t, page) && item < |t|
      modifies this
      ensures Fits(t, page) && events == old(events)
      ensures Walked(s, t, Branch(t, item, index, depth), old(page), old(buttons), page, buttons)
      decreases |t| - item, 1
    {
      var sub := FirstList(t, item);
      if sub.None? {
        assert Branch(t, item, index, depth) == [];
        return;
      }
      var list := sub.value;
      ghost var f := Found(list, item, depth, index);
      ghost var p0, b0 := page, buttons;
      page := page.(ids := page.ids[list := SubMenuId(s.id, index)]);
      if s.active !in t[item].classes && !ActiveBelow(s, t, list) {
        page := page.(hidden := page.hidden[list := true]);
      }
      var v := View(s, page, list);
      page := page.(toggles := page.toggles[list := v], captured := page.captured[list := v.icon]);
      buttons := buttons + [list];
      assert page == Step(s, t, p0, f);
      ghost var p1, b1 := page, buttons;
      WalkedOne(s, t, f, p0, b0);
      FindSubMenus(list, depth + 1);
      WalkedConcat(s, t, [f], Discover(t, list, depth + 1), p0, b0, p1, b1, page, buttons);
      assert Branch(t, item, index, depth) == [f] + Discover(t, list, depth + 1);
    }

    /** `toggleMenu` (lines 115-127) for the list `n`, given the icon its listener holds. */
    method ToggleMenu(n: nat, current: Option<Icon>, hidden: bool) returns (icon: Option<Icon>)
      requires Fits(t, page) && n < |t| && n in page.toggles
      modifies this
      ensures (page, icon) == ToggleMenuSpec(s, old(page), n, current, hidden)
      ensures buttons == old(buttons) && events == old(events)
    {
      page := page.(hidden := page.hidden[n := hidden]);
      var v := page.toggles[n];
      var shown := v.icon;
      icon := current;
      if current.Some? {
        icon := MenuToggleIcon(s, hidden, current);
        shown := icon;
      }
      page := page.(toggles := page.toggles[n := MenuState.ToggleView(v.controls, !hidden, Caption(s, page.hidden[n]), shown)]);
    }

    /**
     * What both listeners do once they know the state wanted (lines 161-164
     * and 174-177): `toggleMenu` with the icon they hold, then keep the icon
     * returned unless it is `null`.
     */
    method Listen(n: nat, hidden: bool)
      requires Valid() && n in page.toggles
      modifies this
      ensures Valid() && page == Handle(s, old(page), n, hidden)
      ensures buttons == old(buttons) && events == old(events)
    {
      HandleConsistent(t, s, page, n, hidden);
      var icon := ToggleMenu(n, page.captured[n], hidden);
      if icon.Some? {
        page := page.(captured := page.captured[n := icon]);
      }
    }

    /** The click listener (lines 160-165). */
    method OnClick(n: nat)
      requires Valid() && n in page.toggles
      modifies this
      ensures Valid() && page == Click(s, old(page), n)
      ensures buttons == old(buttons) && events == old(events)
    {
      Listen(n, !page.hidden[n]);
    }

    /** The keydown listener (lines 168-179); `prevented` is whether it called `preventDefault`. */
    method OnKeyDown(n: nat, key: int) returns (prevented: bool)
      requires Valid() && n in page.toggles
      modifies this
      ensures Valid() && (page, prevented) == KeyPress(s, old(page), n, key)
      ensures prevented <==> key in {KeyDown, KeyUp, KeyEnter, KeySpace}
      ensures buttons == old(buttons) && events == old(events)
    {
      KeyPressEffect(t, s, page, n, key);
      prevented := key in [KeyDown, KeyUp, KeyEnter, KeySpace];
      if prevented {
        var hidden := if key == KeyDown then false else if key == KeyUp then true else !page.hidden[n];
        Listen(n, hidden);
      }
    }
  }
}
