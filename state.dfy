/**
 * The state of the page the dist version of the component reads and writes,
 * as one value: each element's class list, `hidden` attribute and `id`, the
 * `data-boringmenu-depth` attributes, and the toggle button created for each
 * sub-menu (a side table keyed by the list it controls). The sub-menu
 * discovery of `findSubMenus` (dist/boringmenu.module.js lines 97-115) is
 * specified here as a fold of one step per discovered sub-menu.
 */
module MenuState {
  import opened Wrappers
  import opened Dom
  import opened MenuTree
  import opened Options

  /** What a toggle shows: `aria-controls`, `aria-expanded`, the label text and the icon. */
  datatype ToggleView = ToggleView(controls: string, expanded: bool, text: string, icon: Option<Icon>)

  /** The custom events dispatched, in order: `boringmenu-init-done` and `boringmenu-menu-toggle-done`. */
  datatype Event =
    | InitDone(onDocument: bool)
    | ToggleDone(list: nat, depth: Option<nat>)

  datatype DomState = DomState(
    classes: seq<set<string>>,
    hiddenAttr: seq<bool>,
    ids: seq<string>,
    depth: map<nat, nat>,
    toggles: map<nat, ToggleView>)

  /** The per-element parts of the state cover exactly the nodes of `t`. */
  predicate Fits(t: Tree, st: DomState) {
    |st.classes| == |t| && |st.hiddenAttr| == |t| && |st.ids| == |t|
  }

  /** The page as its markup gives it: no depth attributes and no toggles yet. */
  function InitialState(t: Tree): (st: DomState)
    ensures Fits(t, st) && st.depth == map[] && st.toggles == map[]
    ensures forall i | 0 <= i < |t| ::
              st.classes[i] == t[i].classes && st.hiddenAttr[i] == t[i].hidden && st.ids[i] == t[i].id
  {
    DomState(
      seq(|t|, i requires 0 <= i < |t| => t[i].classes),
      seq(|t|, i requires 0 <= i < |t| => t[i].hidden),
      seq(|t|, i requires 0 <= i < |t| => t[i].id),
      map[], map[])
  }

  /** Node `i` is the same in both states: classes, attributes and toggle. */
  predicate SameAt(t: Tree, a: DomState, b: DomState, i: nat) {
    && i < |t| && Fits(t, a) && Fits(t, b)
    && a.classes[i] == b.classes[i] && a.hiddenAttr[i] == b.hiddenAttr[i] && a.ids[i] == b.ids[i]
    && (i in a.depth <==> i in b.depth) && (i in a.depth ==> a.depth[i] == b.depth[i])
    && (i in a.toggles <==> i in b.toggles) && (i in a.toggles ==> a.toggles[i] == b.toggles[i])
  }

  /** `isHidden(menu)` (line 267) under the effective hidden mode. */
  predicate IsHidden(o: Options, st: DomState, n: nat)
    requires n < |st.classes| && n < |st.hiddenAttr|
  {
    IsHiddenIn(o.hidden, st.classes[n], st.hiddenAttr[n])
  }

  /** `setHidden(menu, hidden)` (lines 274-281). */
  function SetHidden(o: Options, st: DomState, n: nat, hidden: bool): (r: DomState)
    requires n < |st.classes| && n < |st.hiddenAttr|
    ensures |r.classes| == |st.classes| && |r.hiddenAttr| == |st.hiddenAttr|
    ensures r.ids == st.ids && r.depth == st.depth && r.toggles == st.toggles
  {
    var (c, a) := SetHiddenIn(o.hidden, st.classes[n], st.hiddenAttr[n], hidden);
    st.(classes := st.classes[n := c], hiddenAttr := st.hiddenAttr[n := a])
  }

  /** After `setHidden(n, h)`, `isHidden(n)` is `h` and every other element is as it was. */
  lemma SetHiddenEffect(t: Tree, o: Options, st: DomState, n: nat, hidden: bool)
    requires HiddenModeOk(o.hidden) && Fits(t, st) && n < |t|
    ensures Fits(t, SetHidden(o, st, n, hidden))
    ensures IsHidden(o, SetHidden(o, st, n, hidden), n) == hidden
    ensures forall i | 0 <= i < |t| && i != n :: SameAt(t, SetHidden(o, st, n, hidden), st, i)
  {
    SetHiddenRoundTrip(o.hidden, st.classes[n], st.hiddenAttr[n], hidden);
  }

  /** `menu.getAttribute('data-boringmenu-depth')`. */
  function DepthAttr(st: DomState, n: nat): Option<nat> {
    if n in st.depth then Some(st.depth[n]) else None
  }

  /** The toggle `getToggle(list)` (lines 153-194) builds for a list in the current state. */
  function View(o: Options, st: DomState, n: nat): ToggleView
    requires n < |st.classes| && n < |st.hiddenAttr| && n < |st.ids|
  {
    var hidden := IsHidden(o, st, n);
    ToggleView(st.ids[n], !hidden, Label(o, hidden), ToggleIcon(o, hidden, n, DepthAttr(st, n)))
  }

  /** Every toggle shows its list's id, state, label and icon. */
  predicate Consistent(o: Options, st: DomState) {
    forall n | n in st.toggles ::
      n < |st.classes| && n < |st.hiddenAttr| && n < |st.ids| && st.toggles[n] == View(o, st, n)
  }

  /** No two toggled lists share an id. */
  predicate IdsDistinct(st: DomState) {
    forall a, b | a in st.toggles && b in st.toggles && a != b ::
      a < |st.ids| && b < |st.ids| && st.ids[a] != st.ids[b]
  }

  // ---------------------------------------------------------------------
  // One discovered sub-menu (lines 103-111)

  /** `item.querySelector('.' + itemActive)`: some descendant of `item` carries an active token. */
  predicate ActiveWithin(o: Options, t: Tree, st: DomState, item: nat)
    requires WellFormed(t) && Fits(t, st) && item < |t|
  {
    exists j | 0 <= j < |PreOrder(t, item)| :: HasAny(st.classes[PreOrder(t, item)[j]], o.activeClasses)
  }

  /** Line 107: a sub-menu is hidden when neither its item nor anything inside the item is active. */
  predicate StartsHidden(o: Options, t: Tree, st: DomState, item: nat)
    requires WellFormed(t) && Fits(t, st) && item < |t|
  {
    !HasAny(st.classes[item], o.activeClasses) && !ActiveWithin(o, t, st, item)
  }

  /** The name a type selector matches for an element; the names of other elements are not modelled. */
  function TagName(tag: Tag): Option<string> {
    match tag
    case UL => Some("ul")
    case LI => Some("li")
    case Anchor => Some("a")
    case OtherTag => None
  }

  /**
   * An element matched by the selector `'.' + tokens` as written: by line 107
   * `tokens` is an array, so the concatenation joins it with commas and
   * `.on,open` selects the class of the first token or the element named by
   * any later one.
   */
  predicate MatchesJoinedSelector(tokens: seq<string>, tag: Tag, classes: set<string>)
    requires |tokens| >= 1
  {
    tokens[0] in classes || (TagName(tag).Some? && TagName(tag).value in tokens[1..])
  }

  /** `item.querySelector('.' + itemActive)` as written. */
  predicate ActiveWithinAsWritten(o: Options, t: Tree, st: DomState, item: nat)
    requires WellFormed(t) && Fits(t, st) && item < |t| && |o.activeClasses| >= 1
  {
    exists j | 0 <= j < |PreOrder(t, item)| ::
      MatchesJoinedSelector(o.activeClasses, t[PreOrder(t, item)[j]].tag, st.classes[PreOrder(t, item)[j]])
  }

  /** Line 107 as written: the initial state with the joined selector. */
  predicate StartsHiddenAsWritten(o: Options, t: Tree, st: DomState, item: nat)
    requires WellFormed(t) && Fits(t, st) && item < |t| && |o.activeClasses| >= 1
  {
    !HasAny(st.classes[item], o.activeClasses) && !ActiveWithinAsWritten(o, t, st, item)
  }

  /** With a single active token the joined selector is the class selector, and both readings agree. */
  lemma StartsHiddenSingleToken(o: Options, t: Tree, st: DomState, item: nat)
    requires WellFormed(t) && Fits(t, st) && item < |t| && |o.activeClasses| == 1
    ensures StartsHiddenAsWritten(o, t, st, item) == StartsHidden(o, t, st, item)
  {
    var s := PreOrder(t, item);
    if ActiveWithin(o, t, st, item) {
      var j :| 0 <= j < |s| && HasAny(st.classes[s[j]], o.activeClasses);
      assert MatchesJoinedSelector(o.activeClasses, t[s[j]].tag, st.classes[s[j]]);
    }
    if ActiveWithinAsWritten(o, t, st, item) {
      var j :| 0 <= j < |s| && MatchesJoinedSelector(o.activeClasses, t[s[j]].tag, st.classes[s[j]]);
      assert o.activeClasses[0] in st.classes[s[j]];
    }
  }

  /**
   * With two or more active tokens, a sub-menu whose item holds only a later
   * token further down (and no element inside is named by one) starts shown
   * by the intended reading but hidden as written.
   */
  lemma ActiveSelectorFinding(o: Options, t: Tree, st: DomState, item: nat, d: nat)
    requires WellFormed(t) && Fits(t, st) && item < |t| && |o.activeClasses| >= 2
    requires !HasAny(st.classes[item], o.activeClasses)
    requires d < |PreOrder(t, item)| && o.activeClasses[1] in st.classes[PreOrder(t, item)[d]]
    requires forall j | 0 <= j < |PreOrder(t, item)| ::
               o.activeClasses[0] !in st.classes[PreOrder(t, item)[j]] && t[PreOrder(t, item)[j]].tag == OtherTag
    ensures StartsHiddenAsWritten(o, t, st, item) && !StartsHidden(o, t, st, item)
  {
    var s := PreOrder(t, item);
    assert HasAny(st.classes[s[d]], o.activeClasses);
    forall j | 0 <= j < |s|
      ensures !MatchesJoinedSelector(o.activeClasses, t[s[j]].tag, st.classes[s[j]])
    {
      assert t[s[j]].tag == OtherTag;
    }
  }

  /** The `k`-th sub-menu found: its id and depth, its initial state, then its toggle. */
  function FindStep(o: Options, t: Tree, st: DomState, f: Found, k: nat): (r: DomState)
    requires WellFormed(t) && Fits(t, st) && f.item < |t| && f.list < |t|
    ensures Fits(t, r)
  {
    var s1 := st.(ids := st.ids[f.list := SubMenuId(o.id, k)], depth := st.depth[f.list := f.depth]);
    var s2 := if StartsHidden(o, t, s1, f.item) then SetHidden(o, s1, f.list, true) else s1;
    s2.(toggles := s2.toggles[f.list := View(o, s2, f.list)])
  }

  /**
   * The page after the steps of `findSubMenus` for the sub-menus `fs`, the
   * `i`-th numbered `c + i + 1`; a step outside the tree changes nothing.
   */
  function FindAll(o: Options, t: Tree, st: DomState, fs: seq<Found>, c: nat): DomState
    decreases |fs|
  {
    if fs == [] then st
    else
      var s := FindAll(o, t, st, fs[..|fs| - 1], c);
      var f := fs[|fs| - 1];
      if WellFormed(t) && Fits(t, s) && f.item < |t| && f.list < |t| then FindStep(o, t, s, f, c + |fs|) else s
  }

  /** Every state on the way has the size of the tree. */
  lemma {:induction false} FindAllFits(o: Options, t: Tree, st: DomState, fs: seq<Found>, c: nat)
    requires WellFormed(t) && Fits(t, st) && Bounded(t, fs)
    ensures Fits(t, FindAll(o, t, st, fs, c))
    decreases |fs|
  {
    if fs != [] {
      FindAllFits(o, t, st, fs[..|fs| - 1], c);
    }
  }

  /** The last step of a non-empty walk. */
  lemma FindAllLast(o: Options, t: Tree, st: DomState, fs: seq<Found>, c: nat)
    requires WellFormed(t) && Fits(t, st) && Bounded(t, fs) && fs != []
    ensures Fits(t, FindAll(o, t, st, fs[..|fs| - 1], c))
    ensures FindAll(o, t, st, fs, c) == FindStep(o, t, FindAll(o, t, st, fs[..|fs| - 1], c), fs[|fs| - 1], c + |fs|)
  {
    FindAllFits(o, t, st, fs[..|fs| - 1], c);
  }

  /** The walk over `p + q` is the walk over `p`, then over `q` with the numbering carried on. */
  lemma {:induction false} FindAllConcat(o: Options, t: Tree, st: DomState, p: seq<Found>, q: seq<Found>, c: nat)
    ensures FindAll(o, t, st, p + q, c) == FindAll(o, t, FindAll(o, t, st, p, c), q, c + |p|)
    decreases |q|
  {
    if q == [] {
      assert p + q == p;
    } else {
      var q' := q[..|q| - 1];
      FindAllConcat(o, t, st, p, q', c);
      assert (p + q)[..|p + q| - 1] == p + q';
    }
  }

  /** What `findSubMenus` does for one item that owns a list: the step for the list, then everything below it. */
  lemma FindAllBranch(o: Options, t: Tree, st: DomState, f: Found, d: seq<Found>, c: nat)
    requires WellFormed(t) && Fits(t, st) && f.item < |t| && f.list < |t|
    ensures FindAll(o, t, st, [f] + d, c) == FindAll(o, t, FindStep(o, t, st, f, c + 1), d, c + 1)
  {
    FindAllConcat(o, t, st, [f], d, c);
    assert [f][..0] == [];
  }

  /** A step touches its own list and nothing else. */
  lemma FindStepFrame(o: Options, t: Tree, st: DomState, f: Found, k: nat, i: nat)
    requires WellFormed(t) && Fits(t, st) && f.item < |t| && f.list < |t| && i < |t| && i != f.list
    ensures SameAt(t, FindStep(o, t, st, f, k), st, i)
  {
  }

  /** Elements that are not among the found lists keep everything. */
  lemma {:induction false} FindAllFrame(o: Options, t: Tree, st: DomState, fs: seq<Found>, c: nat, i: nat)
    requires WellFormed(t) && Fits(t, st) && Bounded(t, fs) && i < |t|
    requires forall k | 0 <= k < |fs| :: fs[k].list != i
    ensures SameAt(t, FindAll(o, t, st, fs, c), st, i)
    decreases |fs|
  {
    FindAllFits(o, t, st, fs, c);
    if fs != [] {
      FindAllLast(o, t, st, fs, c);
      FindAllFrame(o, t, st, fs[..|fs| - 1], c, i);
      FindStepFrame(o, t, FindAll(o, t, st, fs[..|fs| - 1], c), fs[|fs| - 1], c + |fs|, i);
    }
  }

  /** Each step leaves every toggle consistent with its list, the new one included. */
  lemma FindStepConsistent(o: Options, t: Tree, st: DomState, f: Found, k: nat)
    requires WellFormed(t) && Fits(t, st) && f.item < |t| && f.list < |t| && Consistent(o, st)
    ensures Consistent(o, FindStep(o, t, st, f, k))
  {
    var r := FindStep(o, t, st, f, k);
    forall n | n in r.toggles
      ensures n < |r.classes| && n < |r.hiddenAttr| && n < |r.ids| && r.toggles[n] == View(o, r, n)
    {
      if n != f.list {
        FindStepFrame(o, t, st, f, k, n);
      }
    }
  }

  lemma {:induction false} FindAllConsistent(o: Options, t: Tree, st: DomState, fs: seq<Found>, c: nat)
    requires WellFormed(t) && Fits(t, st) && Bounded(t, fs) && Consistent(o, st)
    ensures Consistent(o, FindAll(o, t, st, fs, c))
    decreases |fs|
  {
    FindAllFits(o, t, st, fs, c);
    if fs != [] {
      FindAllLast(o, t, st, fs, c);
      FindAllConsistent(o, t, st, fs[..|fs| - 1], c);
      FindStepConsistent(o, t, FindAll(o, t, st, fs[..|fs| - 1], c), fs[|fs| - 1], c + |fs|);
    }
  }

  /** The step for the `k`-th list is the last to touch it when no later list repeats it. */
  lemma {:induction false} FindAllIdAt(o: Options, t: Tree, st: DomState, fs: seq<Found>, c: nat, k: nat)
    requires WellFormed(t) && Fits(t, st) && Bounded(t, fs) && k < |fs|
    requires forall j | k < j < |fs| :: fs[j].list != fs[k].list
    ensures Fits(t, FindAll(o, t, st, fs, c))
    ensures FindAll(o, t, st, fs, c).ids[fs[k].list] == SubMenuId(o.id, c + k + 1)
    ensures DepthAttr(FindAll(o, t, st, fs, c), fs[k].list) == Some(fs[k].depth)
    decreases |fs|
  {
    FindAllLast(o, t, st, fs, c);
    FindAllFits(o, t, st, fs, c);
    var p := fs[..|fs| - 1];
    if k < |p| {
      FindAllIdAt(o, t, st, p, c, k);
      FindStepFrame(o, t, FindAll(o, t, st, p, c), fs[|fs| - 1], c + |fs|, fs[k].list);
    }
  }

  /** Lines 103-105: the `k`-th list found gets the id `<id>-<c+k+1>` and the depth it was found at. */
  lemma FindAllIds(o: Options, t: Tree, st: DomState, fs: seq<Found>, c: nat)
    requires WellFormed(t) && Fits(t, st) && Bounded(t, fs) && NoRepeats(fs)
    ensures Fits(t, FindAll(o, t, st, fs, c))
    ensures forall k | 0 <= k < |fs| ::
              && FindAll(o, t, st, fs, c).ids[fs[k].list] == SubMenuId(o.id, c + k + 1)
              && DepthAttr(FindAll(o, t, st, fs, c), fs[k].list) == Some(fs[k].depth)
  {
    FindAllFits(o, t, st, fs, c);
    forall k | 0 <= k < |fs|
      ensures && FindAll(o, t, st, fs, c).ids[fs[k].list] == SubMenuId(o.id, c + k + 1)
              && DepthAttr(FindAll(o, t, st, fs, c), fs[k].list) == Some(fs[k].depth)
    {
      FindAllIdAt(o, t, st, fs, c, k);
    }
  }

  /** Line 109: the lists with a toggle are those that had one and the lists found. */
  lemma {:induction false} FindAllToggled(o: Options, t: Tree, st: DomState, fs: seq<Found>, c: nat)
    requires WellFormed(t) && Fits(t, st) && Bounded(t, fs)
    ensures forall n :: n in FindAll(o, t, st, fs, c).toggles <==> n in st.toggles || Listed(fs, n)
    decreases |fs|
  {
    if fs != [] {
      FindAllLast(o, t, st, fs, c);
      FindAllToggled(o, t, st, fs[..|fs| - 1], c);
      forall n ensures Listed(fs, n) <==> Listed(fs[..|fs| - 1], n) || fs[|fs| - 1].list == n {
        ListedSnoc(fs, n);
      }
    }
  }

  /** Toggled lists numbered one by one carry pairwise different ids. */
  lemma NumberedIdsDistinct(r: DomState, fs: seq<Found>, prefix: string, c: nat)
    requires forall n :: n in r.toggles <==> Listed(fs, n)
    requires forall k | 0 <= k < |fs| :: fs[k].list < |r.ids| && r.ids[fs[k].list] == SubMenuId(prefix, c + k + 1)
    ensures IdsDistinct(r)
  {
    forall a, b | a in r.toggles && b in r.toggles && a != b
      ensures a < |r.ids| && b < |r.ids| && r.ids[a] != r.ids[b]
    {
      var i :| 0 <= i < |fs| && fs[i].list == a;
      var j :| 0 <= j < |fs| && fs[j].list == b;
      SubMenuIdInjective(prefix, c + i + 1, c + j + 1);
    }
  }

  /** Numbering from an empty side table gives every toggled list its own id. */
  lemma FindAllIdsDistinct(o: Options, t: Tree, st: DomState, fs: seq<Found>, c: nat)
    requires WellFormed(t) && Fits(t, st) && Bounded(t, fs) && NoRepeats(fs) && st.toggles == map[]
    ensures IdsDistinct(FindAll(o, t, st, fs, c))
  {
    FindAllIds(o, t, st, fs, c);
    FindAllToggled(o, t, st, fs, c);
    NumberedIdsDistinct(FindAll(o, t, st, fs, c), fs, o.id, c);
  }

  // ---------------------------------------------------------------------
  // Which sub-menus start hidden

  /** Whether an element carries an active token is the same in both states, for every element. */
  predicate SameActivity(o: Options, t: Tree, a: DomState, b: DomState)
    requires Fits(t, a) && Fits(t, b)
  {
    forall i | 0 <= i < |t| :: HasAny(a.classes[i], o.activeClasses) == HasAny(b.classes[i], o.activeClasses)
  }

  lemma StartsHiddenSame(o: Options, t: Tree, a: DomState, b: DomState, item: nat)
    requires WellFormed(t) && Fits(t, a) && Fits(t, b) && item < |t| && SameActivity(o, t, a, b)
    ensures StartsHidden(o, t, a, item) == StartsHidden(o, t, b, item)
  {
    var s := PreOrder(t, item);
    if ActiveWithin(o, t, a, item) {
      var j :| 0 <= j < |s| && HasAny(a.classes[s[j]], o.activeClasses);
      assert HasAny(b.classes[s[j]], o.activeClasses);
    }
    if ActiveWithin(o, t, b, item) {
      var j :| 0 <= j < |s| && HasAny(b.classes[s[j]], o.activeClasses);
      assert HasAny(a.classes[s[j]], o.activeClasses);
    }
  }

  /** The initial state of `item` depends only on the class lists of `item` and the elements inside it. */
  lemma StartsHiddenSameOn(o: Options, t: Tree, a: DomState, b: DomState, item: nat)
    requires WellFormed(t) && Fits(t, a) && Fits(t, b) && item < |t|
    requires a.classes[item] == b.classes[item]
    requires forall y | y in PreOrder(t, item) :: a.classes[y] == b.classes[y]
    ensures StartsHidden(o, t, a, item) == StartsHidden(o, t, b, item)
  {
    var s := PreOrder(t, item);
    if ActiveWithin(o, t, a, item) {
      var j :| 0 <= j < |s| && HasAny(a.classes[s[j]], o.activeClasses);
      assert s[j] in s && HasAny(b.classes[s[j]], o.activeClasses);
    }
    if ActiveWithin(o, t, b, item) {
      var j :| 0 <= j < |s| && HasAny(b.classes[s[j]], o.activeClasses);
      assert s[j] in s && HasAny(a.classes[s[j]], o.activeClasses);
    }
  }

  /** The walk up to a step leaves the classes of that step's item, and of everything inside it, as they were. */
  lemma FindAllKeepsItem(o: Options, t: Tree, st: DomState, p: seq<Found>, c: nat, item: nat)
    requires WellFormed(t) && Fits(t, st) && Bounded(t, p) && item < |t|
    requires forall k | 0 <= k < |p| :: !Contains(t, item, p[k].list)
    ensures Fits(t, FindAll(o, t, st, p, c))
    ensures StartsHidden(o, t, FindAll(o, t, st, p, c), item) == StartsHidden(o, t, st, item)
  {
    FindAllFits(o, t, st, p, c);
    PreOrderExactly(t, item);
    FindAllFrame(o, t, st, p, c, item);
    forall y | y in PreOrder(t, item) ensures FindAll(o, t, st, p, c).classes[y] == st.classes[y] {
      FindAllFrame(o, t, st, p, c, y);
    }
    StartsHiddenSameOn(o, t, FindAll(o, t, st, p, c), st, item);
  }

  /** The step for `f` hides its list exactly when its item shows no activity, and otherwise leaves the list as it was. */
  lemma FindStepHidden(o: Options, t: Tree, st: DomState, f: Found, k: nat)
    requires WellFormed(t) && Fits(t, st) && f.item < |t| && f.list < |t| && HiddenModeOk(o.hidden)
    ensures IsHidden(o, FindStep(o, t, st, f, k), f.list) == (StartsHidden(o, t, st, f.item) || IsHidden(o, st, f.list))
  {
    var s1 := st.(ids := st.ids[f.list := SubMenuId(o.id, k)], depth := st.depth[f.list := f.depth]);
    assert SameActivity(o, t, s1, st);
    StartsHiddenSame(o, t, s1, st, f.item);
    if StartsHidden(o, t, s1, f.item) {
      SetHiddenEffect(t, o, s1, f.list, true);
    }
  }

  /** The state the `k`-th list is left in, when no other step touches it. */
  lemma {:induction false} FindAllHiddenAt(o: Options, t: Tree, st: DomState, fs: seq<Found>, c: nat, k: nat)
    requires WellFormed(t) && Fits(t, st) && Bounded(t, fs) && k < |fs|
    requires forall j | 0 <= j < |fs| && j != k :: fs[j].list != fs[k].list
    requires HiddenModeOk(o.hidden) && EarlierOutside(t, fs)
    ensures Fits(t, FindAll(o, t, st, fs, c))
    ensures IsHidden(o, FindAll(o, t, st, fs, c), fs[k].list)
            == (StartsHidden(o, t, st, fs[k].item) || IsHidden(o, st, fs[k].list))
    decreases |fs|
  {
    FindAllLast(o, t, st, fs, c);
    FindAllFits(o, t, st, fs, c);
    var p := fs[..|fs| - 1];
    var f := fs[|fs| - 1];
    var s := FindAll(o, t, st, p, c);
    if k < |p| {
      assert EarlierOutside(t, p) by {
        forall i, j | 0 <= i < j < |p| ensures !Contains(t, p[j].item, p[i].list) {
          assert p[i] == fs[i] && p[j] == fs[j];
        }
      }
      FindAllHiddenAt(o, t, st, p, c, k);
      FindStepFrame(o, t, s, f, c + |fs|, fs[k].list);
    } else {
      FindStepHidden(o, t, s, f, c + |fs|);
      forall j | 0 <= j < |p| ensures !Contains(t, f.item, p[j].list) {
        assert p[j] == fs[j];
      }
      FindAllKeepsItem(o, t, st, p, c, f.item);
      FindAllFrame(o, t, st, p, c, f.list);
    }
  }

  /**
   * Line 107 over the whole walk: a found list is hidden afterwards exactly
   * when its item and everything inside the item lacked the active tokens
   * before the walk, or it was hidden already.
   */
  lemma FindAllHidden(o: Options, t: Tree, st: DomState, fs: seq<Found>, c: nat)
    requires WellFormed(t) && Fits(t, st) && Bounded(t, fs) && NoRepeats(fs) && EarlierOutside(t, fs)
    requires HiddenModeOk(o.hidden)
    ensures Fits(t, FindAll(o, t, st, fs, c))
    ensures forall k | 0 <= k < |fs| ::
              IsHidden(o, FindAll(o, t, st, fs, c), fs[k].list)
              == (StartsHidden(o, t, st, fs[k].item) || IsHidden(o, st, fs[k].list))
  {
    FindAllFits(o, t, st, fs, c);
    forall k | 0 <= k < |fs|
      ensures IsHidden(o, FindAll(o, t, st, fs, c), fs[k].list)
              == (StartsHidden(o, t, st, fs[k].item) || IsHidden(o, st, fs[k].list))
    {
      FindAllHiddenAt(o, t, st, fs, c, k);
    }
  }
}
