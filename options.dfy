/**
 * The effective options of one menu instance and the pure decisions taken
 * from them: class-option normalisation, how "hidden" is represented, the
 * toggle's label and icon for a state, the key handling table, the current
 * path and the sub-menu ids. Option merging is not part of this model: the
 * options arrive here already merged.
 */
module Options {
  import opened Wrappers
  import opened Strings

  // ---------------------------------------------------------------------
  // Class options (dist/boringmenu.module.js lines 39-42)

  /** A class option as configured: a string, an array of strings, or any other value. */
  datatype RawClasses = ClassString(s: string) | ClassArray(tokens: seq<string>) | ClassOther

  /** A string is split on single spaces, an array is kept, anything else becomes `[]`. */
  function NormaliseClasses(raw: RawClasses): seq<string>
  {
    match raw
    case ClassString(s) => Split(s, ' ')
    case ClassArray(tokens) => tokens
    case ClassOther => []
  }

  /** Normalising a string never loses text: the tokens joined by spaces give the string back. */
  lemma NormaliseStringRoundTrip(s: string)
    ensures |NormaliseClasses(ClassString(s))| >= 1
    ensures Join(NormaliseClasses(ClassString(s)), ' ') == s
    ensures forall k | 0 <= k < |NormaliseClasses(ClassString(s))| :: ' ' !in NormaliseClasses(ClassString(s))[k]
  {
    JoinSplit(s, ' ');
  }

  /** A space-free token list survives being written as one string and normalised again. */
  lemma NormaliseJoinedTokens(tokens: seq<string>)
    requires |tokens| >= 1 && forall k | 0 <= k < |tokens| :: ' ' !in tokens[k]
    ensures NormaliseClasses(ClassString(Join(tokens, ' '))) == NormaliseClasses(ClassArray(tokens))
  {
    SplitJoin(tokens, ' ');
  }

  /** `classList.contains` for any of `tokens` (line 290-292 of the dist file, `hasClass` on an array). */
  predicate HasAny(classes: set<string>, tokens: seq<string>) {
    exists k | 0 <= k < |tokens| :: tokens[k] in classes
  }

  /**
   * `hasClass(item, classes)` for the array form every caller passes: false for
   * an empty array, otherwise a scan that returns as soon as a token is present.
   */
  method HasClass(classes: set<string>, tokens: seq<string>) returns (r: bool)
    ensures r <==> exists k | 0 <= k < |tokens| :: tokens[k] in classes
  {
    if |tokens| == 0 {
      return false;
    }
    var i := 0;
    while i < |tokens|
      invariant 0 <= i <= |tokens|
      invariant forall k | 0 <= k < i :: tokens[k] !in classes
    {
      if tokens[i] in classes {
        return true;
      }
      i := i + 1;
    }
    return false;
  }

  // ---------------------------------------------------------------------
  // How a menu is hidden (dist lines 40, 267, 274-281)

  /** Either the `hidden` attribute, or a non-empty list of non-empty class tokens. */
  datatype HiddenMode = AttributeMode | ClassMode(tokens: seq<string>)

  predicate HiddenModeOk(m: HiddenMode) {
    m.ClassMode? ==> |m.tokens| >= 1 && forall k | 0 <= k < |m.tokens| :: m.tokens[k] != ""
  }

  /** The tokens of `tokens` that are not empty, in order. */
  function NonEmpty(tokens: seq<string>): (r: seq<string>)
    ensures forall k | 0 <= k < |r| :: r[k] != "" && r[k] in tokens
    ensures forall k | 0 <= k < |tokens| && tokens[k] != "" :: tokens[k] in r
  {
    if tokens == [] then []
    else
      var rest := NonEmpty(tokens[1..]);
      assert forall k | 1 <= k < |tokens| :: tokens[k] == tokens[1..][k - 1];
      if tokens[0] == "" then rest else [tokens[0]] + rest
  }

  /** A list without empty tokens is left as it is. */
  lemma {:induction false} NonEmptyKeeps(tokens: seq<string>)
    requires "" !in tokens
    ensures NonEmpty(tokens) == tokens
  {
    if tokens != [] {
      assert "" !in tokens[1..];
      NonEmptyKeeps(tokens[1..]);
    }
  }

  /**
   * The mode the `hidden` class option evidently means: the class tokens when
   * there are any, and the `hidden` attribute when the option names no class
   * (the default `''`).
   */
  function HiddenModeOf(raw: RawClasses): (m: HiddenMode)
    ensures HiddenModeOk(m)
    ensures m.AttributeMode? <==> forall k | 0 <= k < |NormaliseClasses(raw)| :: NormaliseClasses(raw)[k] == ""
    ensures m.ClassMode? ==> forall k | 0 <= k < |m.tokens| :: m.tokens[k] in NormaliseClasses(raw)
  {
    var tokens := NonEmpty(NormaliseClasses(raw));
    if tokens == [] then AttributeMode
    else
      assert tokens[0] != "" && tokens[0] in NormaliseClasses(raw);
      ClassMode(tokens)
  }

  /** `isHidden` on one element under a well-formed mode. */
  predicate IsHiddenIn(m: HiddenMode, classes: set<string>, attr: bool) {
    match m
    case AttributeMode => attr
    case ClassMode(tokens) => HasAny(classes, tokens)
  }

  /** The tokens of a list as a set. */
  function TokenSet(tokens: seq<string>): (r: set<string>)
    ensures forall x :: x in r <==> x in tokens
  {
    set k | 0 <= k < |tokens| :: tokens[k]
  }

  /** `setHidden` on one element: add or remove every hidden token, or set the attribute. */
  function SetHiddenIn(m: HiddenMode, classes: set<string>, attr: bool, hidden: bool): (set<string>, bool)
  {
    match m
    case AttributeMode => (classes, hidden)
    case ClassMode(tokens) =>
      (if hidden then classes + TokenSet(tokens) else classes - TokenSet(tokens), attr)
  }

  /** After `setHidden(menu, h)`, `isHidden(menu)` is `h`, and only the mode's own tokens or attribute changed. */
  lemma SetHiddenRoundTrip(m: HiddenMode, classes: set<string>, attr: bool, hidden: bool)
    requires HiddenModeOk(m)
    ensures var (c, a) := SetHiddenIn(m, classes, attr, hidden);
            && IsHiddenIn(m, c, a) == hidden
            && (m.AttributeMode? ==> c == classes)
            && (m.ClassMode? ==> a == attr && forall x | x !in m.tokens :: (x in c <==> x in classes))
  {
    if m.ClassMode? {
      var (c, a) := SetHiddenIn(m, classes, attr, hidden);
      if hidden {
        assert m.tokens[0] in c;
      } else {
        forall k | 0 <= k < |m.tokens| ensures m.tokens[k] !in c { }
      }
    }
  }

  /**
   * As written, line 40 turns every class option into an array, and an array
   * is truthy in JavaScript even when empty, so line 267 always takes the
   * class branch and never reads the `hidden` attribute.
   */
  function HiddenModeAsWritten(raw: RawClasses): HiddenMode {
    ClassMode(NormaliseClasses(raw))
  }

  /** As-written `setHidden`: `classList.add('')` and `classList.remove('')` throw a `SyntaxError`. */
  function SetHiddenAsWritten(tokens: seq<string>, classes: set<string>, attr: bool, hidden: bool)
    : Result<(set<string>, bool)>
  {
    if "" in tokens then Failure("SyntaxError: the token provided must not be empty")
    else Success(SetHiddenIn(ClassMode(tokens), classes, attr, hidden))
  }

  /**
   * The default `hidden: ''` as written: the mode is the class list `['']`,
   * hiding a menu throws instead of setting the attribute, and a menu whose
   * class list holds no empty token is never seen as hidden, whatever its
   * attribute says.
   */
  lemma DefaultHiddenAsWritten(classes: set<string>, attr: bool)
    requires "" !in classes
    ensures HiddenModeAsWritten(ClassString("")) == ClassMode([""])
    ensures SetHiddenAsWritten([""], classes, attr, true).Failure?
    ensures !IsHiddenIn(HiddenModeAsWritten(ClassString("")), classes, attr)
  {
    assert Split("", ' ') == [""];
  }

  /** An empty `hidden` array as written: hiding a menu changes nothing, so it never reads as hidden. */
  lemma EmptyHiddenListAsWritten(classes: set<string>, attr: bool)
    ensures SetHiddenAsWritten([], classes, attr, true) == Success((classes, attr))
    ensures !IsHiddenIn(HiddenModeAsWritten(ClassArray([])), classes, attr)
  {
    assert TokenSet([]) == {};
    assert classes + TokenSet([]) == classes;
  }

  /** The corrected mode: the default `''` (and an empty array) means the `hidden` attribute. */
  lemma DefaultHiddenCorrected()
    ensures HiddenModeOf(ClassString("")) == AttributeMode
    ensures HiddenModeOf(ClassArray([])) == AttributeMode
  {
    assert Split("", ' ') == [""];
  }

  // ---------------------------------------------------------------------
  // Labels and icons (dist lines 130, 164, 201-218)

  /** An icon option: `null`/absent, a string of classes, an array of classes, an element, a function, or another value. */
  datatype IconSpec =
    | NoIcon
    | IconString(s: string)
    | IconArray(tokens: seq<string>)
    | IconNode(node: nat)
    | IconFunction(fn: nat)
    | IconOtherValue(truthy: bool)

  predicate IconTruthy(i: IconSpec) {
    match i
    case NoIcon => false
    case IconString(s) => s != ""
    case IconOtherValue(truthy) => truthy
    case _ => true
  }

  /**
   * A toggle icon: a new `<i>` element with classes, a deep copy of a
   * configured element, what a configured function returned for a list and its
   * depth attribute (an opaque result), or the configured value itself.
   */
  datatype Icon =
    | IconElement(classes: seq<string>)
    | IconCopy(node: nat)
    | IconMade(fn: nat, list: nat, depth: Option<nat>)
    | IconValue(spec: IconSpec)

  datatype Options = Options(
    itemClasses: seq<string>,
    activeClasses: seq<string>,
    parentClasses: seq<string>,
    hidden: HiddenMode,
    openLabel: string,
    closeLabel: string,
    openIcon: IconSpec,
    closeIcon: IconSpec,
    id: string,
    accordion: bool,
    path: string)

  /** The options as configured, before normalisation. */
  datatype RawOptions = RawOptions(
    item: RawClasses,
    itemActive: RawClasses,
    itemParent: RawClasses,
    hidden: RawClasses,
    openLabel: string,
    closeLabel: string,
    openIcon: IconSpec,
    closeIcon: IconSpec,
    id: string,
    mode: string,
    path: string)

  /** The effective options: class options normalised, `mode === 'accordion'` decided once. */
  function Normalise(raw: RawOptions): (o: Options)
    ensures HiddenModeOk(o.hidden)
    ensures o.accordion <==> raw.mode == "accordion"
  {
    Options(
      NormaliseClasses(raw.item), NormaliseClasses(raw.itemActive), NormaliseClasses(raw.itemParent),
      HiddenModeOf(raw.hidden), raw.openLabel, raw.closeLabel, raw.openIcon, raw.closeIcon,
      raw.id, raw.mode == "accordion", raw.path)
  }

  /** `labels[hidden ? 'menu.open' : 'menu.close']`. */
  function Label(o: Options, hidden: bool): string {
    if hidden then o.openLabel else o.closeLabel
  }

  predicate IconsConfigured(o: Options) {
    IconTruthy(o.openIcon) && IconTruthy(o.closeIcon)
  }

  /** The icon option that applies to a menu in state `hidden`. */
  function IconFor(o: Options, hidden: bool): IconSpec {
    if hidden then o.openIcon else o.closeIcon
  }

  /**
   * Building the icon for one option value: a string's space-separated class
   * tokens (empty ones skipped) or an array's tokens on a new `<i>`, a copy of
   * an element, what a function returns, or the value itself.
   */
  function BuildIcon(spec: IconSpec, list: nat, depth: Option<nat>): Icon {
    match spec
    case IconString(s) => IconElement(NonEmpty(Split(s, ' ')))
    case IconArray(tokens) => IconElement(tokens)
    case IconNode(n) => IconCopy(n)
    case IconFunction(f) => IconMade(f, list, depth)
    case _ => IconValue(spec)
  }

  /**
   * The option values that make the icon throw as written: an array (line
   * 212 spreads the new element, which is not iterable, into `classList.add`)
   * and a string whose split (line 209) holds an empty token, from a double,
   * leading or trailing space, which `classList.add` refuses.
   */
  predicate IconThrows(spec: IconSpec) {
    spec.IconArray? || (spec.IconString? && "" in Split(spec.s, ' '))
  }

  /** Building the icon as lines 205-215 do. */
  function BuildIconAsWritten(spec: IconSpec, list: nat, depth: Option<nat>): Result<Icon> {
    match spec
    case IconArray(_) => Failure("TypeError: the element is not iterable")
    case IconString(s) =>
      if "" in Split(s, ' ') then Failure("SyntaxError: an empty class token")
      else Success(IconElement(Split(s, ' ')))
    case _ => Success(BuildIcon(spec, list, depth))
  }

  /** `getToggleIcon(list)` of the dist version, with the throwing cases corrected. */
  function ToggleIcon(o: Options, hidden: bool, list: nat, depth: Option<nat>): (r: Option<Icon>)
    ensures r.Some? <==> IconsConfigured(o)
  {
    if IconsConfigured(o) then Some(BuildIcon(IconFor(o, hidden), list, depth)) else None
  }

  /** `getToggleIcon(list)` of the dist version as written. */
  function ToggleIconAsWritten(o: Options, hidden: bool, list: nat, depth: Option<nat>): Result<Option<Icon>> {
    if !IconsConfigured(o) then Success(None)
    else
      match BuildIconAsWritten(IconFor(o, hidden), list, depth)
      case Success(i) => Success(Some(i))
      case Failure(e) => Failure(e)
  }

  /** An array icon option makes the toggle's icon throw as written; corrected, it is an `<i>` with those classes. */
  lemma ArrayIconFinding(o: Options, hidden: bool, list: nat, depth: Option<nat>)
    requires IconsConfigured(o) && IconFor(o, hidden).IconArray?
    ensures ToggleIconAsWritten(o, hidden, list, depth).Failure?
    ensures ToggleIcon(o, hidden, list, depth) == Some(IconElement(IconFor(o, hidden).tokens))
  {
  }

  /**
   * The as-written icon throws exactly for the configured option values of
   * `IconThrows`, and otherwise it is the corrected icon.
   */
  lemma ToggleIconAgrees(o: Options, hidden: bool, list: nat, depth: Option<nat>)
    ensures ToggleIconAsWritten(o, hidden, list, depth).Failure? <==> IconsConfigured(o) && IconThrows(IconFor(o, hidden))
    ensures ToggleIconAsWritten(o, hidden, list, depth).Success? ==>
              ToggleIconAsWritten(o, hidden, list, depth).value == ToggleIcon(o, hidden, list, depth)
  {
    var spec := IconFor(o, hidden);
    if IconsConfigured(o) && spec.IconString? && "" !in Split(spec.s, ' ') {
      NonEmptyKeeps(Split(spec.s, ' '));
    }
  }

  /**
   * The icon for a state: the open option's icon when hidden, the close
   * option's when shown; a string gives exactly its non-empty tokens.
   */
  lemma ToggleIconFollowsState(o: Options, hidden: bool, list: nat, depth: Option<nat>)
    requires IconsConfigured(o)
    ensures o.openIcon.IconString? && hidden ==>
              ToggleIcon(o, hidden, list, depth) == Some(IconElement(NonEmpty(Split(o.openIcon.s, ' '))))
    ensures o.closeIcon.IconString? && !hidden ==>
              ToggleIcon(o, hidden, list, depth) == Some(IconElement(NonEmpty(Split(o.closeIcon.s, ' '))))
    ensures IconFor(o, hidden).IconString? ==>
              forall c :: c in ToggleIcon(o, hidden, list, depth).value.classes <==>
                            c != "" && c in Split(IconFor(o, hidden).s, ' ')
    ensures o.openIcon.IconNode? && hidden ==> ToggleIcon(o, hidden, list, depth) == Some(IconCopy(o.openIcon.node))
    ensures o.closeIcon.IconNode? && !hidden ==> ToggleIcon(o, hidden, list, depth) == Some(IconCopy(o.closeIcon.node))
  {
  }

  // ---------------------------------------------------------------------
  // Keys (dist lines 182-191; src lines 171-178)

  const KeyEnter := 13
  const KeySpace := 32
  const KeyUp := 38
  const KeyDown := 40

  /** The hidden state a key asks for, or `None` for a key the toggle ignores. */
  function KeyHiddenState(key: int, hidden: bool): Option<bool> {
    if key == KeyDown then Some(false)
    else if key == KeyUp then Some(true)
    else if key == KeyEnter || key == KeySpace then Some(!hidden)
    else None
  }

  /** Down shows, Up hides, Enter and Space flip; exactly these four keys are handled. */
  lemma KeyTable(key: int, hidden: bool)
    ensures KeyHiddenState(key, hidden).Some? <==> key in {13, 32, 38, 40}
    ensures KeyHiddenState(KeyDown, hidden) == Some(false)
    ensures KeyHiddenState(KeyUp, hidden) == Some(true)
    ensures KeyHiddenState(KeyEnter, hidden) == Some(!hidden) && KeyHiddenState(KeySpace, hidden) == Some(!hidden)
  {
  }

  /** Pressing Enter or Space twice asks for the state the menu started in. */
  lemma FlipKeysTwice(key1: int, key2: int, hidden: bool)
    requires key1 in {KeyEnter, KeySpace} && key2 in {KeyEnter, KeySpace}
    ensures KeyHiddenState(key2, KeyHiddenState(key1, hidden).value) == Some(hidden)
  {
  }

  // ---------------------------------------------------------------------
  // The current path (dist line 78)

  /** `pathname.replace(/\/$/, '')`: at most one trailing slash removed. */
  function StripSlash(p: string): string {
    if |p| > 0 && p[|p| - 1] == '/' then p[..|p| - 1] else p
  }

  /** `options.path || pathname.replace(/\/$/, '') + '/'`. */
  function CurrentPath(optPath: string, pathname: string): (r: string)
    ensures optPath != "" ==> r == optPath
    ensures optPath == "" ==> |r| >= 1 && r[|r| - 1] == '/'
  {
    if optPath != "" then optPath else StripSlash(pathname) + "/"
  }

  /** Without a configured path, a pathname and the same pathname with one slash appended give the same path. */
  lemma CurrentPathSlash(pathname: string)
    requires |pathname| == 0 || pathname[|pathname| - 1] != '/'
    ensures CurrentPath("", pathname + "/") == CurrentPath("", pathname) == pathname + "/"
  {
    assert (pathname + "/")[..|pathname|] == pathname;
  }

  /** Deriving the path again from a derived path changes nothing. */
  lemma CurrentPathIdempotent(pathname: string)
    ensures CurrentPath("", CurrentPath("", pathname)) == CurrentPath("", pathname)
  {
    var p := CurrentPath("", pathname);
    assert p[..|p| - 1] + "/" == p;
  }

  // ---------------------------------------------------------------------
  // Sub-menu ids (dist line 104; src line 90)

  /** `options.id + '-' + n`. */
  function SubMenuId(prefix: string, n: nat): string {
    prefix + "-" + Decimal(n)
  }

  /** Two sub-menu ids with the same prefix are equal exactly when their numbers are. */
  lemma SubMenuIdInjective(prefix: string, a: nat, b: nat)
    ensures SubMenuId(prefix, a) == SubMenuId(prefix, b) <==> a == b
  {
    if SubMenuId(prefix, a) == SubMenuId(prefix, b) {
      var n := |prefix| + 1;
      assert SubMenuId(prefix, a)[n..] == Decimal(a);
      assert SubMenuId(prefix, b)[n..] == Decimal(b);
      DecimalInjective(a, b);
    }
  }
}
