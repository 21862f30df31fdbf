# boringmenu in Dafny

This project models the core of boringmenu. The library turns a nested `<ul>`/`<li>` navigation list into a collapsible menu. It finds the nested sub-menus and gives each one an id, a depth and a toggle button. It decides which sub-menus start hidden, and it opens or closes a sub-menu on a click or a key press. In accordion mode, opening or closing one sub-menu closes the others. Before the walk, the library marks the path to the current page with classes.

The project models two versions of the component:

- `dist/boringmenu.module.js` is the current build. These modules model it:
  - `Options`: class-option normalisation, `hasClass`, `isHidden`/`setHidden`, `getToggleIcon` and the key table.
  - `MenuTree`: the pre-order walk that `findSubMenus` performs.
  - `MenuState`: the page state and the effect of the walk.
  - `Marking`: `addClasses`, which marks the active path.
  - `Toggling`: `toggleMenu`, the accordion and the two listeners, as functions.
  - `BoringMenu`: the component as a class. Its methods carry the source's loops and are proved against those functions.
- `src/boringmenu.js` is version 0.0.1, modelled in the module `Legacy`. That version:
  - numbers a sub-menu by its item's position among its siblings;
  - keeps state only in the `hidden` attribute;
  - has a `toggleMenu` that returns the new icon;
  - has listeners that hold that icon in a captured variable.

`Strings`, `Dom` and `Wrappers` are support modules:

- `Strings`: `split`/`join` on one separator, and decimal rendering.
- `Dom`: an arena tree of elements (`seq<Node>` with parent and child indices) with document-order queries.
- `Wrappers`: `Option` and `Result`.

The page is a value held in a field of the component object: the class lists, the `hidden` attributes, the ids, the depth attributes and the toggle of each list. Each method states its new page as a function of the old one. The lemmas beside those functions carry the properties.

Two behaviours of the accordion shape what a toggle does to the other menus:

- The accordion runs on every toggle that comes from a listener, whether it opens or closes the menu. It spares the target (compared by id), hidden menus, menus without a toggle and the target's ancestors. It does not spare the target's descendants.
- Each close that the accordion makes dispatches its own `boringmenu-menu-toggle-done` event, because the recursive call passes `triggerEvent = true`.

## Model

| member | source | states |
|---|---|---|
| `Strings.JoinSplit` | dist/boringmenu.module.js:40 | Joining the pieces of `split(' ')` with spaces gives back the original string. |
| `Strings.SplitJoin` | dist/boringmenu.module.js:40 | Splitting a space-join of space-free tokens gives back the tokens. |
| `Strings.DecimalRoundTrip` | dist/boringmenu.module.js:104 | The number rendered into a sub-menu id reads back as the same number. |
| `Strings.DecimalInjective` | dist/boringmenu.module.js:104 | Two numbers render the same exactly when they are equal. |
| `Dom.ChildItems` | dist/boringmenu.module.js:98 | `:scope > li` yields exactly the `li` children of the list, without repeats, each one a child of that list. |
| `Dom.FirstList` | dist/boringmenu.module.js:100 | `querySelector('ul')` yields a `ul` that is a proper descendant of the item, or nothing. |
| `Dom.FirstListIsFirst` | dist/boringmenu.module.js:100-101 | The list found is the first `ul` below the item in document order, and nothing is found only when no `ul` lies below it. |
| `Dom.PreOrderExactly` | dist/boringmenu.module.js:99-107 | The elements `querySelectorAll` and `querySelector` search below an element are exactly its proper descendants, the ones `contains` finds. |
| `Dom.SiblingsDisjoint` | dist/boringmenu.module.js:98-113 | The subtrees of two different items of one list are disjoint, so the walk never meets an element twice. |
| `Options.NormaliseStringRoundTrip` | dist/boringmenu.module.js:39-42 | A string class option becomes at least one space-free token, and joining the tokens gives back the string. |
| `Options.NormaliseJoinedTokens` | dist/boringmenu.module.js:39-42 | A token array and the same tokens written as one string normalise to the same list. |
| `Options.HasClass` | dist/boringmenu.module.js:288-295 | The loop returns true exactly when some token of the array is in the element's class list, so an empty array gives false. |
| `Options.HiddenModeOf` | dist/boringmenu.module.js:266-281 | The corrected hidden mode is the `hidden` attribute exactly when the option names no non-empty class. Otherwise it is the option's own non-empty tokens. |
| `Options.SetHiddenRoundTrip` | dist/boringmenu.module.js:266-281 | After `setHidden(menu, h)`, `isHidden(menu)` is `h`. Only the mode's own tokens, or the attribute, change. |
| `Options.DefaultHiddenAsWritten` | dist/boringmenu.module.js:40 | As written, the default `hidden: ''` becomes `['']`, so hiding a menu throws and the attribute is never read. |
| `Options.EmptyHiddenListAsWritten` | dist/boringmenu.module.js:266-281 | As written, an empty `hidden` array makes hiding a no-op, so a menu never reads as hidden. |
| `Options.DefaultHiddenCorrected` | dist/boringmenu.module.js:20 | Corrected, the default `''` and the empty array both select the `hidden` attribute. |
| `Options.Normalise` | dist/boringmenu.module.js:37-42 | The effective options have a well-formed hidden mode, and accordion mode is on exactly when `mode === 'accordion'`. |
| `Options.ToggleIcon` | dist/boringmenu.module.js:201-218 | A toggle gets an icon exactly when both icon options are truthy. This is the corrected icon, which never throws. |
| `Options.ArrayIconFinding` | dist/boringmenu.module.js:210-213 | As written, an array icon option throws. Corrected, it gives an `<i>` with those classes. |
| `Options.ToggleIconAgrees` | dist/boringmenu.module.js:201-218 | As written, the icon throws exactly when both icons are set and the option for the state is an array, or a string whose split holds an empty token. Otherwise it is the corrected icon. |
| `Options.ToggleIconFollowsState` | dist/boringmenu.module.js:203-215 | A hidden menu gets the open option's icon and a shown menu gets the close option's icon. A string becomes an `<i>` with exactly its non-empty space-separated tokens, and a node becomes a copy. |
| `Options.KeyTable` | dist/boringmenu.module.js:182-189 | Exactly keys 13, 32, 38 and 40 are handled: Down shows, Up hides, Enter and Space flip. |
| `Options.FlipKeysTwice` | dist/boringmenu.module.js:189 | Two presses of Enter or Space ask for the starting state again. |
| `Options.CurrentPath` | dist/boringmenu.module.js:78 | A configured path is used as it is. Otherwise the path ends in `/`. |
| `Options.CurrentPathSlash` | dist/boringmenu.module.js:78 | A pathname with or without one trailing slash gives the same current path. |
| `Options.CurrentPathIdempotent` | dist/boringmenu.module.js:78 | Deriving the current path from a derived path changes nothing. |
| `Options.SubMenuIdInjective` | dist/boringmenu.module.js:104 | Two ids `<prefix>-<n>` with the same prefix are equal exactly when their numbers are. |
| `MenuTree.DiscoverWithin` | dist/boringmenu.module.js:98-113 | Every sub-menu found lies below the menu, and below its own item. |
| `MenuTree.DiscoverBounds` | dist/boringmenu.module.js:97-115 | Every found item has a larger index in the tree than the menu, and every found list a larger index than its item. |
| `MenuTree.DiscoverNoRepeats` | dist/boringmenu.module.js:97-115 | The walk never finds the same list, or the same item, twice. |
| `MenuTree.DiscoverCovers` | dist/boringmenu.module.js:98-101 | Every child item that holds a `ul` has its first `ul` found, at the walk's depth and with the item's position. |
| `MenuTree.DiscoverNested` | dist/boringmenu.module.js:111-113 | The sub-menus inside a found list come right after it, one level deeper (pre-order). |
| `MenuTree.DiscoverPlaced` | dist/boringmenu.module.js:97-115 | A found sub-menu's item is a child item either of the menu, at the starting depth, or of an earlier found list, one level deeper. Its index is the item's position there. |
| `MenuState.SetHiddenEffect` | dist/boringmenu.module.js:274-281 | `setHidden(n, h)` leaves `n` in state `h` and every other element as it was. |
| `MenuState.FindAllIds` | dist/boringmenu.module.js:103-105 | The `k`-th sub-menu found gets the id `<id>-<c+k+1>` and the depth it was found at. |
| `MenuState.FindAllIdsDistinct` | dist/boringmenu.module.js:103-104 | Numbered from an empty side table, no two toggled lists share an id. |
| `MenuState.FindAllToggled` | dist/boringmenu.module.js:109 | After the walk, the lists with a toggle are those that already had one plus the lists found. |
| `MenuState.FindAllConsistent` | dist/boringmenu.module.js:153-172 | Every toggle built shows its list's id, `aria-expanded` state, label and icon, and the walk keeps them so. |
| `MenuState.FindAllFrame` | dist/boringmenu.module.js:97-115 | Elements that are not found lists keep their classes, attributes and toggle. |
| `MenuState.StartsHiddenSingleToken` | dist/boringmenu.module.js:107 | With one active token, the selector `'.' + itemActive` as written and the intended reading decide the same initial state. |
| `MenuState.ActiveSelectorFinding` | dist/boringmenu.module.js:107 | With two or more active tokens, an item holding only a later token further down starts hidden as written, but shown by the intended reading. |
| `MenuState.FindStepHidden` | dist/boringmenu.module.js:107 | One step hides its list exactly when its item shows no active class on itself or inside it. Otherwise the list keeps its state. |
| `MenuTree.DiscoverEarlierOutside` | dist/boringmenu.module.js:97-115 | No list found by the walk contains an item found after it, so a later item is never inside a list the walk has already hidden or shown. |
| `MenuState.FindAllKeepsItem` | dist/boringmenu.module.js:103-109 | Handling lists that do not contain an item leaves that item's activity, and so its initial state, as it was. |
| `MenuState.FindAllHidden` | dist/boringmenu.module.js:107 | After the walk, a found list is hidden exactly when its item showed no activity before the walk, or the list was already hidden. |
| `Toggling.RefreshEffect` | dist/boringmenu.module.js:127-134 | The refresh sets the requested state, keeps every toggle in step with its list and changes no other element. |
| `Toggling.CloseStepHides` | dist/boringmenu.module.js:136-137 | One accordion turn changes at most `m`, and it leaves `m` hidden when `m` has a toggle, is not the target and does not contain it. |
| `Toggling.CloseStepIsRecursiveToggle` | dist/boringmenu.module.js:137 | An accordion close is exactly a recursive `toggleMenu(m, true)`, including its own toggle-done event. |
| `Toggling.CloseOthersKeeps` | dist/boringmenu.module.js:135-138 | The accordion pass keeps every toggle consistent and the ids distinct. |
| `Toggling.CloseOthersCloses` | dist/boringmenu.module.js:135-138 | After the pass, every registered menu with a toggle that neither is nor contains the target is hidden. |
| `Toggling.CloseOthersOnly` | dist/boringmenu.module.js:135-138 | The pass changes only registered toggled menus outside the target's ancestry, and it leaves those hidden. |
| `Toggling.CloseOthersEvents` | dist/boringmenu.module.js:135-146 | Every event of the pass reports a registered menu outside the target's ancestry that the pass closed. |
| `Toggling.ToggleSetsState` | dist/boringmenu.module.js:126-147 | `toggleMenu` leaves the menu in the requested state with consistent toggles and distinct ids. |
| `Toggling.ToggleDefault` | dist/boringmenu.module.js:126-147 | In default mode, or when recursive, only the menu changes, and exactly one event is dispatched when `triggerEvent` is set (none otherwise). |
| `Toggling.ToggleAccordionCloses` | dist/boringmenu.module.js:135-138 | In accordion mode a toggle from a listener closes every registered toggled menu that neither is nor contains the target. |
| `Toggling.ToggleAccordionOnly` | dist/boringmenu.module.js:135-138 | In accordion mode every element other than the target and the menus closed keeps its state. |
| `Toggling.ToggleAccordionEvents` | dist/boringmenu.module.js:135-146 | In accordion mode the events are the closes in registry order, then the target's own event when asked. |
| `Toggling.ToggleSparesAncestors` | dist/boringmenu.module.js:136 | In any mode, toggling a menu never changes its ancestors. |
| `Toggling.ClickFlips` | dist/boringmenu.module.js:174-177 | A click flips the menu's state and keeps the page's invariants, ids and depths. |
| `Toggling.ClickTwice` | dist/boringmenu.module.js:174-177 | Two clicks restore the menu's state and its toggle, in any mode. |
| `Toggling.ClickTwiceOthers` | dist/boringmenu.module.js:174-177 | Without the accordion, two clicks touch nothing but the clicked menu. |
| `Toggling.ClickTwiceRestores` | dist/boringmenu.module.js:174-177 | Without the accordion and in attribute mode, two clicks leave the whole page as it was. |
| `Toggling.KeyPressEffect` | dist/boringmenu.module.js:179-192 | Down shows, Up hides, and Enter and Space act like a click. Any other key changes nothing. The page's invariants are kept. |
| `Marking.ActiveLinks` | dist/boringmenu.module.js:79-80 | The links matched are exactly the elements with an item class whose `href` is the current path. |
| `Marking.WalkMarksExactly` | dist/boringmenu.module.js:83-89 | The upward walk gives the parent classes to exactly the non-active item first children of the `li` ancestors it reaches. It changes no other class list. |
| `Marking.WalkStopsAtMenu` | dist/boringmenu.module.js:88 | Nothing above an element matching the menu selector is marked. |
| `Marking.MarkLinkAdds` | dist/boringmenu.module.js:81-89 | A matched link gets the active classes, and marking only ever adds active or parent classes. |
| `Marking.MarkAllAdds` | dist/boringmenu.module.js:80-90 | After the `forEach`, every matched link has the active classes, and only active or parent classes were added. |
| `Marking.AddClassesMarksLinks` | dist/boringmenu.module.js:77-91 | Every item link inside the menu whose `href` is the current path ends with the active classes. |
| `Marking.MarkLinkExactly` | dist/boringmenu.module.js:81-89 | Marking one link adds the active classes to the link, the parent classes to exactly the elements its walk marks, and nothing else. |
| `Marking.MarkAllExactly` | dist/boringmenu.module.js:80-90 | After the `forEach`, an element gained the active classes exactly when it is a matched link, and the parent classes exactly when some link's walk marked it. No other class changed. |
| `Marking.AddClassesExactly` | dist/boringmenu.module.js:77-91 | Corrected, `addClasses` adds the active classes to exactly the item links inside the menu whose `href` is the current path. It adds the parent classes to exactly the first children that one of those links' walks marks. No other class changes. |
| `Marking.EscapesExactly` | dist/boringmenu.module.js:84-88 | The upward walk reaches the `document` and throws exactly when no ancestor of its start is a non-`li` element matching the menu selector. |
| `Marking.ThrowStops` | dist/boringmenu.module.js:80-88 | Once a link's walk has thrown, the later links are never marked. |
| `Marking.MarkAllAsWrittenAgrees` | dist/boringmenu.module.js:80-90 | As written, the `forEach` throws exactly when some link's walk escapes. Without a throw it makes the same marks as the corrected marking. With one, it has made the corrected marks of the links up to and including the first that throws. |
| `Marking.AddClassesAsWrittenAgrees` | dist/boringmenu.module.js:77-91 | As written, `addClasses` throws exactly when some item link inside the menu with the current `href` has a walk that escapes. Otherwise its page is the corrected marking. |
| `Marking.LinkUnderMenuThrows` | dist/boringmenu.module.js:83-88 | A matched link placed directly in the menu list, with nothing above the menu matching the menu selector, makes `addClasses` throw as written, while the corrected marking gives it the active classes. |
| `Marking.AddClassesOnlyAdds` | dist/boringmenu.module.js:77-91 | `addClasses` never removes a class, and it adds only the active and parent classes. |
| `BoringMenu.Marked` | dist/boringmenu.module.js:51-63 | Before the walk the root has depth 1 and no list has a toggle. |
| `BoringMenu.InitialisedIds` | dist/boringmenu.module.js:103-105 | After the constructor, the `k`-th sub-menu found has the id `<id>-<k+1>` and its depth, and the root has depth 1. |
| `BoringMenu.InitialisedDepths` | dist/boringmenu.module.js:97-113 | A sub-menu of a root item has depth 2, and any other has the depth of the sub-menu holding its item plus one. |
| `BoringMenu.InitialisedToggles` | dist/boringmenu.module.js:97-115 | The lists with a toggle are exactly the sub-menus found, every toggle matches its list, and no two share an id. |
| `BoringMenu.InitialisedHidden` | dist/boringmenu.module.js:107 | A sub-menu starts hidden exactly when its item shows no activity after the path is marked, or the markup hid it. |
| `BoringMenu.CurrentLinkActive` | dist/boringmenu.module.js:77-91 | Once the path is marked, an item holding a link to the current page shows activity. |
| `BoringMenu.CurrentPageShown` | dist/boringmenu.module.js:107 | A sub-menu whose item holds a link to the current page is not hidden by the walk: it keeps the state the markup gave it. |
| `BoringMenu.Menu.constructor` | dist/boringmenu.module.js:37-71 | With no menu, only the init event on the document. When marking the active path throws at line 88, the page as marked up to the throw, the registry holding only the root, a zero counter and no event. Otherwise the marked and walked page, the counter, the registry (root first, then the sub-menus in discovery order) and the init event on the menu. |
| `BoringMenu.Menu.AddClasses` | dist/boringmenu.module.js:77-91 | The method's new page and whether it threw are those of `addClasses` as written: the corrected marking when no walk escapes, and the marks made up to the throw when one does. |
| `BoringMenu.Menu.MarkLinks` | dist/boringmenu.module.js:80-90 | The loop over the matched links marks them in order and stops at the first link whose walk throws, reporting the throw. |
| `BoringMenu.Menu.MarkAncestors` | dist/boringmenu.module.js:82-89 | The `while` loop up the parent chain gives the specified walk, and reports that it passed the top element exactly when the walk escapes. |
| `BoringMenu.Menu.FindSubMenus` | dist/boringmenu.module.js:97-115 | The recursive `forEach` numbers, hides, toggles and registers exactly the pre-order discovery, with the counter advanced by its length. |
| `BoringMenu.Menu.ScanItem` | dist/boringmenu.module.js:98-114 | One item's callback does nothing for a leaf item. Otherwise it handles the item's list and then everything below it. |
| `BoringMenu.Menu.Register` | dist/boringmenu.module.js:103-109 | One sub-menu gets its id, its depth, its initial state and its toggle. |
| `BoringMenu.Menu.ToggleMenu` | dist/boringmenu.module.js:126-147 | The page and events after `toggleMenu` are the specified toggle. The registry and counter are unchanged. |
| `BoringMenu.Menu.CloseOthersLoop` | dist/boringmenu.module.js:135-138 | The `forEach` over the registry gives the accordion pass and its events, in registry order. |
| `BoringMenu.Menu.CloseTurn` | dist/boringmenu.module.js:136-137 | One callback spares the menu or closes it by a recursive toggle. |
| `BoringMenu.Menu.OnClick` | dist/boringmenu.module.js:174-177 | The click listener flips the menu, and the page stays valid. |
| `BoringMenu.Menu.OnKeyDown` | dist/boringmenu.module.js:179-192 | `preventDefault` is called exactly for the four handled keys, and the page is the specified key press. |
| `Legacy.MenuToggleIcon` | src/boringmenu.js:191-205 | With both icons set there is always an icon. Otherwise the icon passed in is returned unchanged. |
| `Legacy.MenuToggleIconAgrees` | src/boringmenu.js:191-205 | As written, the icon throws exactly when both icons are set and the option for the state is a string whose split holds an empty token. Otherwise it is the corrected icon. |
| `Legacy.MenuToggleIconChoice` | src/boringmenu.js:191-205 | With both icons set, the icon depends only on the state: a string becomes an `<i>` with its non-empty space-separated tokens, and any other value is used as it is. |
| `Legacy.WalkAt` | src/boringmenu.js:90-95 | A list that only its own step touches gets the id `<id>-<index>`, and it ends hidden when it was hidden or nothing around it is active. |
| `Legacy.WalkToggled` | src/boringmenu.js:98 | After the walk, the lists with a toggle are those that had one plus the lists found. |
| `Legacy.InitialisedIds` | src/boringmenu.js:90 | Each sub-menu's id is the prefix, a dash and its item's position among its siblings. |
| `Legacy.InitialisedHidden` | src/boringmenu.js:93-95 | A sub-menu is hidden after the walk exactly when the markup hid it or neither its item nor anything inside the list is active. |
| `Legacy.InitialisedToggles` | src/boringmenu.js:82-103 | The lists with a toggle are exactly the lists found, every toggle matches its list, and every other element keeps its markup. |
| `Legacy.InitialisedConsistent` | src/boringmenu.js:135-157 | Every toggle built shows its list's id, state, label and icon, and its listeners hold that icon. |
| `Legacy.PlacedIndex` | src/boringmenu.js:83 | The index of a found sub-menu is its item's position among the child items of the item's parent. |
| `Legacy.SiblingIdsDistinct` | src/boringmenu.js:83-90 | Sub-menus of items in the same list get different ids. |
| `Legacy.TwoLevelsDiscover` | src/boringmenu.js:82-103 | In a menu with one sub-menu nested in another, the walk finds both, each at position 0 of its level. |
| `Legacy.IdsRepeatAcrossLevels` | src/boringmenu.js:90 | In that menu both toggles' `aria-controls` name the same id `<id>-0`. |
| `Legacy.OneTogglePerSubMenu` | src/boringmenu.js:83-101 | Each list is found once, and every child item of the menu that holds a `ul` has that list found. |
| `Legacy.NestedToggled` | src/boringmenu.js:101 | Every child item of a found list that holds a `ul` has that list found too. |
| `Legacy.ToggleMenuSpec` | src/boringmenu.js:115-127 | `toggleMenu` changes only the hidden attributes and the toggle views. It keeps the ids, the set of toggles and the icons the listeners hold. |
| `Legacy.HandleRebuilds` | src/boringmenu.js:160-165 | On a consistent toggle, a listener sets the list's state, rebuilds its toggle for that state, and holds the new icon. |
| `Legacy.HandleConsistent` | src/boringmenu.js:115-127 | A listener keeps every toggle consistent with its list, including the icon the listeners hold. |
| `Legacy.HandleSets` | src/boringmenu.js:116 | A listener sets the list to the requested state and changes no other element. |
| `Legacy.ClickTwice` | src/boringmenu.js:160-165 | Two clicks restore the page exactly. |
| `Legacy.KeyPressEffect` | src/boringmenu.js:168-179 | The default action is prevented exactly for the four keys: Down shows, Up hides, and Enter and Space click. Any other key changes nothing. |
| `Legacy.Menu.constructor` | src/boringmenu.js:40-75 | With no menu, only the init event on the document. Otherwise the walked page, one button per list found and the init event on the menu. |
| `Legacy.Menu.FindSubMenus` | src/boringmenu.js:82-103 | The recursive `forEach` gives the walk over the pre-order discovery and inserts one button per list found, in order. |
| `Legacy.Menu.ScanItem` | src/boringmenu.js:83-102 | One item's callback does nothing for a leaf item. Otherwise it handles the item's list and then everything below it. |
| `Legacy.Menu.ToggleMenu` | src/boringmenu.js:115-127 | The page after `toggleMenu` and the icon it returns are as specified. |
| `Legacy.Menu.Listen` | src/boringmenu.js:161-164 | A listener's toggle and its update of the held icon give the specified page, and the page stays valid. |
| `Legacy.Menu.OnClick` | src/boringmenu.js:160-165 | The click listener is the specified click, and the page stays valid. |
| `Legacy.Menu.OnKeyDown` | src/boringmenu.js:168-179 | The keydown listener is the specified key press and reports whether it called `preventDefault`. |

## Left out

- Option merging (`mergeOptions`) is left out, including the `data-boringmenu` JSON merged on the root (which can throw). The model takes the effective options as input: `Options.Normalise` for the current version and `Legacy.Settings` for version 0.0.1.
- `getID()`/`Date.now()` is left out. The id prefix is part of the options.
- The page's pathname (`window.location`) is a parameter, not read from a global.
- DOM construction is not modelled: creating the button, its `span` and its text node, `insertBefore` and `replaceChild`. A toggle is a record of what the button shows (`aria-controls`, `aria-expanded`, label, icon), kept in a side table keyed by the list. In version 0.0.1 the inserted buttons are a log of lists. `appendChild` throws on an icon value that is not a node: an array, a function or another value at line 156 of version 0.0.1, and another value at line 168 of the current version; the model gives such a toggle the value itself as its icon (`IconValue` in `Options.BuildIcon` and `Legacy.MenuToggleIcon`). Version 0.0.1 appends an element icon without copying it, so the one node moves from toggle to toggle and ends up on the last one created; the model gives every toggle that element as its icon.
- Event plumbing is not modelled (`addEventListener`, `stopPropagation`, `CustomEvent` bubbling). The listeners are methods. Dispatched events are appended to a log with the fields the model distinguishes.
- The polyfills for IE11 are left out: they install library functions, not component behaviour.
- Selector matching is modelled by its results. `:scope > li` is the `li` children, `querySelector('ul')` is the first `ul` below the element, and matching the menu selector is a flag on each element. Selector strings are not parsed.
- Icon nodes and icon factory functions are opaque values. `cloneNode(true)` is a copy marker, and a factory's result is a value of the model's icon type.
- `BoringMenu.Menu.constructor`: requires `ClassOptionsValid`: at least one item and one active class, and no class token that is empty or holds a space, the hiding classes included. Such a token throws at line 81, 87 or 276, or makes a selector at lines 79 and 107 read differently. That error path is not modelled. Tokens with other characters special in selectors or class lists (tabs, dots, brackets) are not checked.
- `BoringMenu.Menu.constructor`: requires `HiddenModeOk`, so the component runs on the corrected hidden mode of `Options.HiddenModeOf`. As written, attribute mode is unreachable: every class option is turned into an array at line 40, and an array is truthy at line 267.
- `Options.Normalise`: the hidden mode is the corrected one. As written, `hidden: ['']` (the default) and a string with a doubled, leading or trailing space such as `'is-hidden '` make line 276 call `classList.add` with an empty token, which throws. `HiddenModeOf` drops the empty tokens instead. The as-written default is stated by `Options.DefaultHiddenAsWritten`.
- `MenuState.StartsHidden`: reads line 107's selector as intended, as any active token on an element inside the item. As written, with two or more active tokens the selector matches the first token as a class and the later ones as tag names (`MenuState.StartsHiddenAsWritten`). The two agree when there is one active token (`MenuState.StartsHiddenSingleToken`).
- `MenuState.FindStepHidden`: uses the intended reading of line 107's selector, which differs from the code with two or more active tokens.
- `MenuState.FindAllHidden`: uses the intended reading of line 107's selector, which differs from the code with two or more active tokens.
- `BoringMenu.InitialisedHidden`: uses the intended reading of line 107's selector, which differs from the code with two or more active tokens.
- `BoringMenu.Menu.Register`: uses the intended reading of line 107's selector, which differs from the code with two or more active tokens.
- `Marking.AddClassesExactly`: describes the corrected marking, whose walk stops quietly at the top element. As written, a walk that passes the top element throws at line 88 (`Marking.AddClassesAsWrittenAgrees`), and then the later links are not marked at all.
- `Marking.AddClassesMarksLinks`: holds of the corrected marking. As written, the links after a throwing one do not get the active classes.
- `Marking.AddClassesOnlyAdds`: is proved of the corrected marking only. The as-written page is the corrected marking of a prefix of the links, which only adds classes too, but that is not stated separately.
- `BoringMenu.Initialised`: is the page after a constructor that does not throw. `BoringMenu.InitialisedIds`, `BoringMenu.InitialisedDepths`, `BoringMenu.InitialisedToggles`, `BoringMenu.InitialisedHidden`, `BoringMenu.CurrentLinkActive` and `BoringMenu.CurrentPageShown` describe that page; the constructor gives it only when `BoringMenu.InitThrows` is false.
- `MenuState.TagName`: only `ul`, `li` and `a` have tag names in the model. A later active token naming another tag never matches in `MenuState.StartsHiddenAsWritten`.
- `Options.ToggleIcon`: is the corrected icon. A string option whose split holds an empty token gives an `<i>` with the non-empty tokens, while the code throws. `Options.ToggleIconAsWritten` states the throwing behaviour.
- `Options.ToggleIconFollowsState`: states the corrected icon's classes, the non-empty tokens of the string. As written, a string with an empty token throws.
- `Options.ToggleIconAgrees`: relates the two only where the code does not throw. An array icon option whose tokens are empty or hold a space would throw in the corrected icon too, and that is not modelled.
- `Legacy.MenuToggleIcon`: is the corrected icon of version 0.0.1. A string with an empty token gives the non-empty tokens, while line 200 throws. `Legacy.MenuToggleIconAsWritten` states the throwing behaviour.
- `Legacy.MenuToggleIconChoice`: states the corrected icon's classes. As written, a string with an empty token throws.
- Class tokens holding whitespace other than a space (a tab or a newline) also make `classList.add` throw. The icon models treat them as ordinary tokens.
- `Legacy.Menu.constructor`: requires `ClassName(s.active)` for the same reason, at line 93 of version 0.0.1.
- `Legacy.Menu.FindSubMenus`: the recursion depth is a ghost parameter. Version 0.0.1 keeps no depth, and the model uses it only to name the walk's discoveries.
- The `aria-haspopup` attribute, the toggle's classes and the text container's classes are constant per button and not modelled.
- `getMenu()` and `getMenuObjects()` only return fields (`root` and `menuObjects`), so they have no separate members.

## Findings

| source | as written | input that shows it | evidently intended | confidence | as-written member | corrected member |
|---|---|---|---|---|---|---|
| dist/boringmenu.module.js:40 | The default `hidden: ''` is split into `['']`. A non-empty array is truthy, so line 267 never reads the `hidden` attribute. Line 276 calls `classList.add('')`, which throws. | default options, any sub-menu whose item is not active | An empty class option selects the `hidden` attribute | high (not executed) | `Options.DefaultHiddenAsWritten` | `Options.DefaultHiddenCorrected` |
| dist/boringmenu.module.js:210-213 | The array branch overwrites `menuToggleIcon` with the new `<i>` and then spreads that element into `classList.add`. An element is not iterable, so this throws a `TypeError`. | `icons: {'menu.open': ['fa', 'fa-plus'], 'menu.close': ['fa', 'fa-times']}` | An `<i>` with the array's classes | high (not executed) | `Options.ArrayIconFinding` | `Options.ToggleIcon` |
| dist/boringmenu.module.js:107 | `itemActive` is an array by then (line 40), and `'.' + itemActive` joins it with commas. `['on', 'open']` gives the selector `.on,open`, which matches class `on` or an `<open>` element. | `classes: {itemActive: 'on open'}` and an item whose sub-menu holds an element with class `open` only | Any element inside the item with any active class keeps the sub-menu shown | high (not executed) | `MenuState.ActiveSelectorFinding` | `MenuState.FindStepHidden` |
| dist/boringmenu.module.js:83-88 | The loop tests `item.parentNode` and then steps to it, so from the top element it steps on to the `document`. Then `item.tagName` is undefined and `item.matches` is not a function, and line 88 throws a `TypeError`. `findSubMenus` never runs and no init event is dispatched. | `<ul class="boringmenu"><a class="boringmenu__item" href="/x/">` with pathname `/x/`: the link's walk starts at the menu list and looks only above it | The walk stops quietly at the top of the document, as the `while (item.parentNode)` guard suggests | high (not executed) | `Marking.LinkUnderMenuThrows` | `Marking.AddClassesExactly` |
| src/boringmenu.js:90 | Ids come from the item's position among its siblings, so sub-menus at different levels can get the same id and `aria-controls` becomes ambiguous. | a sub-menu inside the first item of a sub-menu that is itself under the first root item | An id unique in the menu (the current version's running counter) | high (not executed) | `Legacy.IdsRepeatAcrossLevels` | `BoringMenu.InitialisedToggles` |
