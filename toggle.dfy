/**
 * Showing and hiding a sub-menu in the dist version: `toggleMenu`
 * (dist/boringmenu.module.js lines 126-147), the accordion pass over the
 * registered menus it makes when not called recursively, and the click and
 * key handlers that call it (lines 174-192).
 */
module Toggling {
  import opened Wrappers
  import opened Dom
  import opened Options
  import opened MenuState

  /**
   * Lines 127-134: set the state, then bring the toggle's `aria-expanded`,
   * its label and, when it has an icon, its icon up to date.
   */
  function Refresh(o: Options, st: DomState, n: nat, hidden: bool): (r: DomState)
    requires n in st.toggles && n < |st.classes| && n < |st.hiddenAttr|
    ensures |r.classes| == |st.classes| && |r.hiddenAttr| == |st.hiddenAttr|
    ensures r.ids == st.ids && r.depth == st.depth && r.toggles.Keys == st.toggles.Keys
  {
    var s1 := SetHidden(o, st, n, hidden);
    var v := s1.toggles[n];
    var h := IsHidden(o, s1, n);
    var icon := if v.icon.Some? then ToggleIcon(o, h, n, DepthAttr(s1, n)) else v.icon;
    s1.(toggles := s1.toggles[n := v.(expanded := !h, text := Label(o, h), icon := icon)])
  }

  /** Two states that agree on element `i` show the same state and the same toggle for it. */
  lemma SameAtView(t: Tree, o: Options, a: DomState, b: DomState, i: nat)
    requires SameAt(t, a, b, i)
    ensures IsHidden(o, a, i) == IsHidden(o, b, i) && View(o, a, i) == View(o, b, i)
  {
  }

  /** After the refresh the menu has the requested state and no other element changed. */
  lemma RefreshHides(t: Tree, o: Options, st: DomState, n: nat, hidden: bool)
    requires HiddenModeOk(o.hidden) && Fits(t, st) && n < |t| && n in st.toggles
    ensures Fits(t, Refresh(o, st, n, hidden))
    ensures IsHidden(o, Refresh(o, st, n, hidden), n) == hidden
    ensures forall i | 0 <= i < |t| && i != n :: SameAt(t, Refresh(o, st, n, hidden), st, i)
  {
    SetHiddenEffect(t, o, st, n, hidden);
  }

  /** The refresh keeps every toggle in step with its list. */
  lemma RefreshEffect(t: Tree, o: Options, st: DomState, n: nat, hidden: bool)
    requires HiddenModeOk(o.hidden) && Fits(t, st) && n < |t| && n in st.toggles && Consistent(o, st)
    ensures Fits(t, Refresh(o, st, n, hidden))
    ensures IsHidden(o, Refresh(o, st, n, hidden), n) == hidden
    ensures Consistent(o, Refresh(o, st, n, hidden))
    ensures forall i | 0 <= i < |t| && i != n :: SameAt(t, Refresh(o, st, n, hidden), st, i)
  {
    var s1 := SetHidden(o, st, n, hidden);
    SetHiddenEffect(t, o, st, n, hidden);
    var r := Refresh(o, st, n, hidden);
    assert r.classes == s1.classes && r.hiddenAttr == s1.hiddenAttr && r.ids == s1.ids && r.depth == s1.depth;
    assert r.toggles == s1.toggles[n := r.toggles[n]];
    assert r.toggles[n] == View(o, r, n);
    forall m | m in r.toggles
      ensures m < |r.classes| && m < |r.hiddenAttr| && m < |r.ids| && r.toggles[m] == View(o, r, m)
    {
      if m != n {
        SameAtView(t, o, r, st, m);
      }
    }
  }

  /** Line 136: the accordion leaves `m` alone when it has `n`'s id, is hidden, contains `n`, or has no toggle. */
  predicate Spared(o: Options, t: Tree, st: DomState, m: nat, n: nat)
    requires Fits(t, st) && m < |t| && n < |t|
  {
    st.ids[m] == st.ids[n] || IsHidden(o, st, m) || Contains(t, m, n) || m !in st.toggles
  }

  /** The accordion's turn for the registered menu `m` (lines 136-137): spare it, or close it and report it. */
  function CloseStep(o: Options, t: Tree, st: DomState, m: nat, n: nat): (r: (DomState, seq<Event>))
    requires Fits(t, st) && m < |t| && n < |t|
    ensures Fits(t, r.0) && r.0.toggles.Keys == st.toggles.Keys && r.0.ids == st.ids && r.0.depth == st.depth
  {
    if Spared(o, t, st, m, n) then (st, [])
    else
      var s := Refresh(o, st, m, true);
      (s, [ToggleDone(m, DepthAttr(s, m))])
  }

  /** Every registered menu in `reg`, in order, takes its turn (line 135). */
  function CloseOthers(o: Options, t: Tree, st: DomState, reg: seq<nat>, n: nat): (r: (DomState, seq<Event>))
    requires Fits(t, st) && n < |t| && forall k | 0 <= k < |reg| :: reg[k] < |t|
    ensures Fits(t, r.0) && r.0.toggles.Keys == st.toggles.Keys && r.0.ids == st.ids && r.0.depth == st.depth
    decreases |reg|
  {
    if reg == [] then (st, [])
    else
      var (s, ev) := CloseOthers(o, t, st, reg[..|reg| - 1], n);
      var (s', ev') := CloseStep(o, t, s, reg[|reg| - 1], n);
      (s', ev + ev')
  }

  /** No other toggled list has `n`'s id. */
  predicate IdUnique(st: DomState, n: nat) {
    forall m | m in st.toggles && m != n :: m < |st.ids| && n < |st.ids| && st.ids[m] != st.ids[n]
  }

  /** What the accordion's pass needs of the page to close the right menus. */
  predicate Pass(o: Options, t: Tree, st: DomState, reg: seq<nat>, n: nat) {
    && HiddenModeOk(o.hidden) && Fits(t, st) && n < |t| && n in st.toggles && IdUnique(st, n)
    && forall k | 0 <= k < |reg| :: reg[k] < |t|
  }

  /** What `toggleMenu` keeps true of the page: the pass's needs, consistent toggles and distinct ids. */
  predicate Ready(o: Options, t: Tree, st: DomState, reg: seq<nat>, n: nat) {
    Pass(o, t, st, reg, n) && Consistent(o, st) && IdsDistinct(st)
  }

  /** A page with consistent toggles and distinct ids is ready for a toggle of any toggled list. */
  lemma ReadyOf(o: Options, t: Tree, st: DomState, reg: seq<nat>, n: nat)
    requires HiddenModeOk(o.hidden) && Fits(t, st) && n < |t| && n in st.toggles
    requires Consistent(o, st) && IdsDistinct(st) && forall k | 0 <= k < |reg| :: reg[k] < |t|
    ensures Ready(o, t, st, reg, n)
  {
  }

  /** Distinct ids survive any change that keeps the ids and the set of toggles. */
  lemma IdsDistinctKept(a: DomState, b: DomState)
    requires IdsDistinct(a) && b.ids == a.ids && b.toggles.Keys == a.toggles.Keys
    ensures IdsDistinct(b)
  {
    assert forall x :: x in b.toggles <==> x in a.toggles;
  }

  /** A uniquely named list stays uniquely named under any change that keeps the ids and the set of toggles. */
  lemma IdUniqueKept(a: DomState, b: DomState, n: nat)
    requires IdUnique(a, n) && b.ids == a.ids && b.toggles.Keys == a.toggles.Keys
    ensures IdUnique(b, n)
  {
    assert forall x :: x in b.toggles <==> x in a.toggles;
  }

  /** One turn touches at most `m`; it leaves `m` hidden when `m` has a toggle, is not `n` and does not contain `n`. */
  lemma CloseStepHides(o: Options, t: Tree, st: DomState, m: nat, n: nat)
    requires Pass(o, t, st, [], n) && m < |t|
    ensures forall i | 0 <= i < |t| && i != m :: SameAt(t, CloseStep(o, t, st, m, n).0, st, i)
    ensures m in st.toggles && m != n && !Contains(t, m, n) ==> IsHidden(o, CloseStep(o, t, st, m, n).0, m)
    ensures SameAt(t, CloseStep(o, t, st, m, n).0, st, m)
            || (m in st.toggles && m != n && !Contains(t, m, n) && IsHidden(o, CloseStep(o, t, st, m, n).0, m))
  {
    if !Spared(o, t, st, m, n) {
      RefreshHides(t, o, st, m, true);
    }
  }

  /** One turn keeps every toggle in step with its list. */
  lemma CloseStepConsistent(o: Options, t: Tree, st: DomState, m: nat, n: nat)
    requires Ready(o, t, st, [], n) && m < |t|
    ensures Consistent(o, CloseStep(o, t, st, m, n).0)
  {
    if !Spared(o, t, st, m, n) {
      RefreshEffect(t, o, st, m, true);
    }
  }

  /** The accordion pass keeps every toggle consistent and the ids distinct. */
  lemma {:induction false} CloseOthersKeeps(o: Options, t: Tree, st: DomState, reg: seq<nat>, n: nat)
    requires Ready(o, t, st, reg, n)
    ensures Ready(o, t, CloseOthers(o, t, st, reg, n).0, reg, n)
    decreases |reg|
  {
    if reg != [] {
      var p := reg[..|reg| - 1];
      var m := reg[|reg| - 1];
      CloseOthersKeeps(o, t, st, p, n);
      var s := CloseOthers(o, t, st, p, n).0;
      CloseStepConsistent(o, t, s, m, n);
      var r := CloseOthers(o, t, st, reg, n).0;
      assert r == CloseStep(o, t, s, m, n).0;
      IdsDistinctKept(st, r);
      IdUniqueKept(st, r, n);
    }
  }

  /** Line 136 over the whole pass: a registered menu with a toggle that neither is `n` nor contains it ends hidden. */
  lemma {:induction false} CloseOthersCloses(o: Options, t: Tree, st: DomState, reg: seq<nat>, n: nat)
    requires Pass(o, t, st, reg, n)
    ensures forall m | m in reg && m in st.toggles && m != n && !Contains(t, m, n) ::
              IsHidden(o, CloseOthers(o, t, st, reg, n).0, m)
    decreases |reg|
  {
    if reg != [] {
      var p := reg[..|reg| - 1];
      var m := reg[|reg| - 1];
      CloseOthersCloses(o, t, st, p, n);
      var s := CloseOthers(o, t, st, p, n).0;
      IdUniqueKept(st, s, n);
      CloseStepHides(o, t, s, m, n);
      var r := CloseOthers(o, t, st, reg, n).0;
      assert r == CloseStep(o, t, s, m, n).0;
      forall x | x in reg && x in st.toggles && x != n && !Contains(t, x, n)
        ensures IsHidden(o, r, x)
      {
        if x != m {
          assert x in p;
          SameAtView(t, o, r, s, x);
        }
      }
    }
  }

  /** The pass changes nothing but registered toggled menus outside `n`'s ancestry, and those it leaves hidden. */
  lemma {:induction false} CloseOthersOnly(o: Options, t: Tree, st: DomState, reg: seq<nat>, n: nat)
    requires Pass(o, t, st, reg, n)
    ensures forall i | 0 <= i < |t| ::
              || SameAt(t, CloseOthers(o, t, st, reg, n).0, st, i)
              || (i in reg && i in st.toggles && i != n && !Contains(t, i, n)
                  && IsHidden(o, CloseOthers(o, t, st, reg, n).0, i))
    decreases |reg|
  {
    if reg != [] {
      var p := reg[..|reg| - 1];
      var m := reg[|reg| - 1];
      CloseOthersOnly(o, t, st, p, n);
      var s := CloseOthers(o, t, st, p, n).0;
      IdUniqueKept(st, s, n);
      CloseStepHides(o, t, s, m, n);
      var r := CloseOthers(o, t, st, reg, n).0;
      assert r == CloseStep(o, t, s, m, n).0;
      forall i | 0 <= i < |t|
        ensures || SameAt(t, r, st, i)
                || (i in reg && i in st.toggles && i != n && !Contains(t, i, n) && IsHidden(o, r, i))
      {
        if SameAt(t, r, s, i) {
          SameAtView(t, o, r, s, i);
          if !SameAt(t, s, st, i) {
            assert i in p;
          }
        } else {
          assert i == m;
        }
      }
    }
  }

  /** What an event of the accordion pass reports: a registered toggled menu outside `n`'s ancestry. */
  predicate ClosedOther(t: Tree, st: DomState, reg: seq<nat>, n: nat, e: Event) {
    e.ToggleDone? && e.list in reg && e.list in st.toggles && e.list != n && !Contains(t, e.list, n)
  }

  /** Every event of the pass reports a registered menu outside `n`'s ancestry that the pass closed. */
  lemma {:induction false} CloseOthersEvents(o: Options, t: Tree, st: DomState, reg: seq<nat>, n: nat)
    requires Pass(o, t, st, reg, n)
    ensures forall k | 0 <= k < |CloseOthers(o, t, st, reg, n).1| :: ClosedOther(t, st, reg, n, CloseOthers(o, t, st, reg, n).1[k])
    decreases |reg|
  {
    if reg != [] {
      var p := reg[..|reg| - 1];
      var m := reg[|reg| - 1];
      CloseOthersEvents(o, t, st, p, n);
      var s := CloseOthers(o, t, st, p, n).0;
      var ev := CloseOthers(o, t, st, p, n).1;
      var ev' := CloseStep(o, t, s, m, n).1;
      assert CloseOthers(o, t, st, reg, n).1 == ev + ev';
      if !Spared(o, t, s, m, n) {
        IdUniqueKept(st, s, n);
        assert m in s.toggles && s.ids[m] != s.ids[n];
        assert ClosedOther(t, st, reg, n, ev'[0]);
      }
      forall k | 0 <= k < |ev| ensures ClosedOther(t, st, reg, n, ev[k]) {
        assert ClosedOther(t, st, p, n, ev[k]);
      }
    }
  }

  // ---------------------------------------------------------------------
  // `toggleMenu` as a whole

  /** `toggleMenu(n, hidden, trigger, recursive)`: the new page and the events it dispatches. */
  function ToggleSpec(o: Options, t: Tree, st: DomState, reg: seq<nat>, n: nat, hidden: bool, trigger: bool, recursive: bool)
    : (r: (DomState, seq<Event>))
    requires Fits(t, st) && n < |t| && n in st.toggles && forall k | 0 <= k < |reg| :: reg[k] < |t|
    ensures Fits(t, r.0) && r.0.toggles.Keys == st.toggles.Keys && r.0.ids == st.ids && r.0.depth == st.depth
  {
    var s1 := Refresh(o, st, n, hidden);
    var (s2, ev) := if !recursive && o.accordion then CloseOthers(o, t, s1, reg, n) else (s1, []);
    (s2, ev + if trigger then [ToggleDone(n, DepthAttr(s2, n))] else [])
  }

  /**
   * Line 137: the accordion closes `m` by calling `toggleMenu` on it
   * recursively, with the event still requested, so a close is exactly such a
   * call, its own `toggle-done` event included.
   */
  lemma CloseStepIsRecursiveToggle(o: Options, t: Tree, st: DomState, reg: seq<nat>, m: nat, n: nat)
    requires Fits(t, st) && m < |t| && n < |t| && forall k | 0 <= k < |reg| :: reg[k] < |t|
    requires !Spared(o, t, st, m, n)
    ensures m in st.toggles
    ensures CloseStep(o, t, st, m, n) == ToggleSpec(o, t, st, reg, m, true, true, true)
    ensures CloseStep(o, t, st, m, n).1 == [ToggleDone(m, DepthAttr(st, m))]
  {
    var s := Refresh(o, st, m, true);
    assert [] + [ToggleDone(m, DepthAttr(s, m))] == [ToggleDone(m, DepthAttr(s, m))];
  }

  /** The pass over `reg[..i + 1]` is the pass over `reg[..i]` followed by the turn of `reg[i]`. */
  lemma CloseOthersNext(o: Options, t: Tree, st: DomState, reg: seq<nat>, n: nat, i: nat)
    requires Fits(t, st) && n < |t| && i < |reg| && forall k | 0 <= k < |reg| :: reg[k] < |t|
    ensures var (s, ev) := CloseOthers(o, t, st, reg[..i], n);
            var (s', ev') := CloseStep(o, t, s, reg[i], n);
            CloseOthers(o, t, st, reg[..i + 1], n) == (s', ev + ev')
  {
    assert reg[..i + 1][..i] == reg[..i];
  }

  /** The first half of `toggleMenu`, the refresh of `n`, keeps what the second half needs. */
  lemma RefreshReady(o: Options, t: Tree, st: DomState, reg: seq<nat>, n: nat, hidden: bool)
    requires Ready(o, t, st, reg, n)
    ensures Ready(o, t, Refresh(o, st, n, hidden), reg, n)
    ensures IsHidden(o, Refresh(o, st, n, hidden), n) == hidden
    ensures forall i | 0 <= i < |t| && i != n :: SameAt(t, Refresh(o, st, n, hidden), st, i)
  {
    RefreshEffect(t, o, st, n, hidden);
    IdsDistinctKept(st, Refresh(o, st, n, hidden));
    IdUniqueKept(st, Refresh(o, st, n, hidden), n);
  }

  /** A toggle leaves `n` in the requested state and keeps the page's invariants: consistent toggles, distinct ids. */
  lemma ToggleSetsState(o: Options, t: Tree, st: DomState, reg: seq<nat>, n: nat, hidden: bool, trigger: bool, recursive: bool)
    requires Ready(o, t, st, reg, n)
    ensures Ready(o, t, ToggleSpec(o, t, st, reg, n, hidden, trigger, recursive).0, reg, n)
    ensures IsHidden(o, ToggleSpec(o, t, st, reg, n, hidden, trigger, recursive).0, n) == hidden
  {
    var s1 := Refresh(o, st, n, hidden);
    RefreshReady(o, t, st, reg, n, hidden);
    if !recursive && o.accordion {
      CloseOthersKeeps(o, t, s1, reg, n);
      CloseOthersOnly(o, t, s1, reg, n);
      var r := CloseOthers(o, t, s1, reg, n).0;
      assert SameAt(t, r, s1, n);
      SameAtView(t, o, r, s1, n);
    }
  }

  /** In the default mode, or when called by the accordion itself, only `n` changes and at most one event is dispatched. */
  lemma ToggleDefault(o: Options, t: Tree, st: DomState, reg: seq<nat>, n: nat, hidden: bool, trigger: bool, recursive: bool)
    requires Ready(o, t, st, reg, n) && (!o.accordion || recursive)
    ensures forall i | 0 <= i < |t| && i != n :: SameAt(t, ToggleSpec(o, t, st, reg, n, hidden, trigger, recursive).0, st, i)
    ensures ToggleSpec(o, t, st, reg, n, hidden, trigger, recursive).1
            == if trigger then [ToggleDone(n, DepthAttr(st, n))] else []
  {
    RefreshHides(t, o, st, n, hidden);
  }

  /** In accordion mode a toggle of `n` from a handler closes every registered menu with a toggle that neither is `n` nor contains it. */
  lemma ToggleAccordionCloses(o: Options, t: Tree, st: DomState, reg: seq<nat>, n: nat, hidden: bool, trigger: bool)
    requires Ready(o, t, st, reg, n) && o.accordion
    ensures forall m | m in reg && m in st.toggles && m != n && !Contains(t, m, n) ::
              IsHidden(o, ToggleSpec(o, t, st, reg, n, hidden, trigger, false).0, m)
  {
    var s1 := Refresh(o, st, n, hidden);
    RefreshReady(o, t, st, reg, n, hidden);
    CloseOthersCloses(o, t, s1, reg, n);
  }

  /** In accordion mode every element other than `n` and those closed keeps its state; `n`'s ancestors in particular. */
  lemma ToggleAccordionOnly(o: Options, t: Tree, st: DomState, reg: seq<nat>, n: nat, hidden: bool, trigger: bool)
    requires Ready(o, t, st, reg, n) && o.accordion
    ensures forall i | 0 <= i < |t| && i != n ::
              || SameAt(t, ToggleSpec(o, t, st, reg, n, hidden, trigger, false).0, st, i)
              || (i in reg && i in st.toggles && !Contains(t, i, n)
                  && IsHidden(o, ToggleSpec(o, t, st, reg, n, hidden, trigger, false).0, i))
  {
    var s1 := Refresh(o, st, n, hidden);
    RefreshReady(o, t, st, reg, n, hidden);
    CloseOthersOnly(o, t, s1, reg, n);
    var r := CloseOthers(o, t, s1, reg, n).0;
    assert r == ToggleSpec(o, t, st, reg, n, hidden, trigger, false).0;
    forall i | 0 <= i < |t| && i != n && !SameAt(t, r, st, i)
      ensures i in reg && i in st.toggles && !Contains(t, i, n) && IsHidden(o, r, i)
    {
      assert SameAt(t, s1, st, i);
    }
  }

  /** In accordion mode the events are the closes, in registry order, then `n`'s own when `trigger` is set. */
  lemma ToggleAccordionEvents(o: Options, t: Tree, st: DomState, reg: seq<nat>, n: nat, hidden: bool, trigger: bool)
    requires Ready(o, t, st, reg, n) && o.accordion
    ensures var ev := ToggleSpec(o, t, st, reg, n, hidden, trigger, false).1;
            && (trigger ==> |ev| >= 1 && ev[|ev| - 1] == ToggleDone(n, DepthAttr(st, n)))
            && forall k | 0 <= k < |ev| - (if trigger then 1 else 0) :: ClosedOther(t, st, reg, n, ev[k])
  {
    var s1 := Refresh(o, st, n, hidden);
    RefreshReady(o, t, st, reg, n, hidden);
    CloseOthersEvents(o, t, s1, reg, n);
    var ev := CloseOthers(o, t, s1, reg, n).1;
    forall k | 0 <= k < |ev| ensures ClosedOther(t, st, reg, n, ev[k]) {
      assert ClosedOther(t, s1, reg, n, ev[k]);
    }
  }

  /** Whatever the mode, the ancestors of `n` are never changed by toggling `n`. */
  lemma ToggleSparesAncestors(o: Options, t: Tree, st: DomState, reg: seq<nat>, n: nat, hidden: bool, trigger: bool, recursive: bool)
    requires Ready(o, t, st, reg, n)
    ensures forall a: nat | a < |t| && Desc(t, a, n) :: SameAt(t, ToggleSpec(o, t, st, reg, n, hidden, trigger, recursive).0, st, a)
  {
    forall a: nat | a < |t| && Desc(t, a, n)
      ensures SameAt(t, ToggleSpec(o, t, st, reg, n, hidden, trigger, recursive).0, st, a)
    {
      DescBelow(t, a, n);
      if o.accordion && !recursive {
        ToggleAccordionOnly(o, t, st, reg, n, hidden, trigger);
      } else {
        ToggleDefault(o, t, st, reg, n, hidden, trigger, recursive);
      }
    }
  }

  // ---------------------------------------------------------------------
  // The handlers (lines 174-192)

  /** A click asks for the opposite of the current state (line 176). */
  function Click(o: Options, t: Tree, st: DomState, reg: seq<nat>, n: nat): (r: (DomState, seq<Event>))
    requires Fits(t, st) && n < |t| && n in st.toggles && forall k | 0 <= k < |reg| :: reg[k] < |t|
    ensures Fits(t, r.0) && r.0.toggles.Keys == st.toggles.Keys
  {
    ToggleSpec(o, t, st, reg, n, !IsHidden(o, st, n), true, false)
  }

  /** A key press (lines 182-191): one of the four handled keys toggles, any other key changes nothing. */
  function KeyPress(o: Options, t: Tree, st: DomState, reg: seq<nat>, n: nat, key: int): (DomState, seq<Event>)
    requires Fits(t, st) && n < |t| && n in st.toggles && forall k | 0 <= k < |reg| :: reg[k] < |t|
  {
    match KeyHiddenState(key, IsHidden(o, st, n))
    case None => (st, [])
    case Some(h) => ToggleSpec(o, t, st, reg, n, h, true, false)
  }

  /** A click flips the menu's state and keeps the page's invariants. */
  lemma ClickFlips(o: Options, t: Tree, st: DomState, reg: seq<nat>, n: nat)
    requires Ready(o, t, st, reg, n)
    ensures Ready(o, t, Click(o, t, st, reg, n).0, reg, n)
    ensures IsHidden(o, Click(o, t, st, reg, n).0, n) == !IsHidden(o, st, n)
    ensures Click(o, t, st, reg, n).0.ids == st.ids && Click(o, t, st, reg, n).0.depth == st.depth
  {
    ToggleSetsState(o, t, st, reg, n, !IsHidden(o, st, n), true, false);
  }

  /** Two clicks on the same toggle restore its menu's state and its toggle, in any mode. */
  lemma ClickTwice(o: Options, t: Tree, st: DomState, reg: seq<nat>, n: nat)
    requires Ready(o, t, st, reg, n)
    ensures IsHidden(o, Click(o, t, Click(o, t, st, reg, n).0, reg, n).0, n) == IsHidden(o, st, n)
    ensures Click(o, t, Click(o, t, st, reg, n).0, reg, n).0.toggles[n] == st.toggles[n]
  {
    var s1 := Click(o, t, st, reg, n).0;
    ClickFlips(o, t, st, reg, n);
    ClickFlips(o, t, s1, reg, n);
    var r := Click(o, t, s1, reg, n).0;
    assert View(o, r, n) == View(o, st, n);
  }

  /** Without the accordion, two clicks touch nothing but the clicked menu. */
  lemma ClickTwiceOthers(o: Options, t: Tree, st: DomState, reg: seq<nat>, n: nat)
    requires Ready(o, t, st, reg, n) && !o.accordion
    ensures forall i | 0 <= i < |t| && i != n :: SameAt(t, Click(o, t, Click(o, t, st, reg, n).0, reg, n).0, st, i)
  {
    var s1 := Click(o, t, st, reg, n).0;
    ClickFlips(o, t, st, reg, n);
    ToggleDefault(o, t, st, reg, n, !IsHidden(o, st, n), true, false);
    ToggleDefault(o, t, s1, reg, n, !IsHidden(o, s1, n), true, false);
    var r := Click(o, t, s1, reg, n).0;
    forall i | 0 <= i < |t| && i != n ensures SameAt(t, r, st, i) {
      assert SameAt(t, r, s1, i) && SameAt(t, s1, st, i);
    }
  }

  /** Without the accordion and with the `hidden` attribute, two clicks leave the page exactly as it was. */
  lemma ClickTwiceRestores(o: Options, t: Tree, st: DomState, reg: seq<nat>, n: nat)
    requires Ready(o, t, st, reg, n) && !o.accordion && o.hidden.AttributeMode?
    ensures Click(o, t, Click(o, t, st, reg, n).0, reg, n).0 == st
  {
    var s1 := Click(o, t, st, reg, n).0;
    ClickFlips(o, t, st, reg, n);
    ClickFlips(o, t, s1, reg, n);
    ClickTwice(o, t, st, reg, n);
    ClickTwiceOthers(o, t, st, reg, n);
    var r := Click(o, t, s1, reg, n).0;
    assert r.classes[n] == st.classes[n];
    forall i | 0 <= i < |t| ensures r.classes[i] == st.classes[i] && r.hiddenAttr[i] == st.hiddenAttr[i] {
      if i != n {
        assert SameAt(t, r, st, i);
      }
    }
    assert r.classes == st.classes;
    assert r.hiddenAttr == st.hiddenAttr;
    forall i | i in r.toggles ensures r.toggles[i] == st.toggles[i] {
      if i != n {
        assert SameAt(t, r, st, i);
      }
    }
    assert r.toggles == st.toggles;
  }

  /** Down always shows, Up always hides, Enter and Space flip, and other keys change nothing. */
  lemma KeyPressEffect(o: Options, t: Tree, st: DomState, reg: seq<nat>, n: nat, key: int)
    requires Ready(o, t, st, reg, n)
    ensures Ready(o, t, KeyPress(o, t, st, reg, n, key).0, reg, n)
    ensures key == KeyDown ==> !IsHidden(o, KeyPress(o, t, st, reg, n, key).0, n)
    ensures key == KeyUp ==> IsHidden(o, KeyPress(o, t, st, reg, n, key).0, n)
    ensures key == KeyEnter || key == KeySpace ==> KeyPress(o, t, st, reg, n, key) == Click(o, t, st, reg, n)
    ensures key !in {KeyDown, KeyUp, KeyEnter, KeySpace} ==> KeyPress(o, t, st, reg, n, key) == (st, [])
  {
    KeyTable(key, IsHidden(o, st, n));
    match KeyHiddenState(key, IsHidden(o, st, n))
    case None =>
    case Some(h) => ToggleSetsState(o, t, st, reg, n, h, true, false);
  }
}
