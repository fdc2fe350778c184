# Tree keyboard navigation, pre-order numbering and checkbox state, in Dafny

This project models three parts of a React component library:

- The keyboard navigation engine of the `Tree` component (`TreeContextProvider` in `src/components/Tree/Tree.tsx`). Its state is a list of open node ids and the focused node. Its key handler maps Tab, Shift+Tab, the four arrows, Space, Enter and `*` to the next state. The engine uses:
  - a pre-order lookup by id (`getTreeNodeWithId`);
  - a focus setter that can toggle the open state (`confirmFocus`);
  - the open-list toggle (`handleSetOpenTreeItemIds`);
  - a parent finder that scans the rendered items backwards (`getParentOfTreeNodeWithId`).
- The story helper `addIdAttributesToTreeNodes` (`src/components/Tree/Tree.stories.tsx`). It writes pre-order ids into a tree of objects in place.
- The derived state of the `Checkbox` component (`src/components/Checkbox/Checkbox.tsx`):
  - `hasValue` and the tri-state `aria-checked`;
  - the label id and the colour;
  - the `aria-*` mirrors of the flags;
  - the gating of `onChange` by `disabled` and by the key.

Layout:

| file | module | contents |
|---|---|---|
| `options.dfy` | `Options` | `Option` |
| `seqs.dfy` | `Seqs` | `indexOf`, distinctness, counting and filtering on `number[]` |
| `tree_data.dfy` | `TreeData` | the node datatype, pre-order, the lookup `Find`, and the rendered item list `Visible(root, open)` |
| `open_list.dfy` | `OpenList` | the open list and its toggle, with `splice` and `push` as JavaScript does them |
| `parents.dfy` | `Parents` | the backward scan of `getParentOfTreeNodeWithId`, proved equal to the tree parent |
| `navigation.dfy` | `Navigation` | the key handler as a function `Step(root, nav, key)` |
| `nav_props.dfy` | `NavigationProps` | what each key does, the invariants every key keeps, and the single tab stop |
| `tree_nav.dfy` | `TreeNavigator` | the provider as a class, with fields `open` and `focused` |
| `numbering.dfy` | `Numbering` | the numbering, specified on values and run in place on heap objects |
| `checkbox.dfy` | `CheckboxState` | the checkbox derivations |

The provider's class has one method per callback. Each method states its new state as the matching function of the `Navigation` module applied to the old state. The properties are lemmas about those functions.

The DOM reads of the handler are replaced by what rendering determines:

- The `querySelectorAll(tag)` list of item ids is the pre-order listing of the root's descendants. A node's children appear only while it has a non-empty `children` array and its id is open. The root is never an item.
- `document.activeElement` is the focused item.
- The `contains(activeElement)` test of the parent scan says that the focused item is rendered inside the candidate's child list.
- The `parentElement` role test (is the item placed directly in the root list?) is membership of the id among the root's child ids. This is exact when ids are unique.

Where the code departs from the usual tree-view keyboard conventions, the model follows the code:

- Tab and Shift+Tab past either end clear the focus. They neither stop there nor wrap.
- The arrows treat a target id of 0 as missing and do nothing.
- `*` appends to the open list. It does not take a union, so an id can be listed twice.
  - One ArrowLeft or Space on such a node removes one occurrence, and the node stays open (`CloseDuplicateStaysOpen`).
  - Toggling flips membership only while an id is listed at most once.
- ArrowRight on an open node whose `children` array is empty removes the focus. The next rendered item is not inside that node, so the lookup below it finds nothing (`RightOnEmptyOpenLosesFocus`).
- Nothing is reset when the tree is replaced.

## Model

| member | source | states |
|---|---|---|
| TreeNavigator.GetTreeNodeWithId | src/components/Tree/Tree.tsx:94-112 | the loop with the early-exit accumulator returns `Find(node, id)`: the node itself, else the first match in its children's subtrees, collapsed ones included |
| TreeData.FindIn | src/components/Tree/Tree.tsx:94-112 | a found node carries the id asked for and belongs to the forest; nothing is found exactly when the id occurs nowhere in the forest |
| TreeData.Find | src/components/Tree/Tree.tsx:94-112 | `getTreeNodeWithId` on one node: the node itself when its id matches, else the first match in its children's subtrees (`FindUnfold`, `FindIsFirstInPreOrder`) |
| TreeData.FindIsFirstInPreOrder | src/components/Tree/Tree.tsx:94-112 | the lookup equals the reference "first node in the pre-order listing with that id" |
| TreeData.FirstWithId | src/components/Tree/Tree.tsx:94-112 | reference for the lookup: found iff the id is listed, and then it is the node at the first index of that id |
| TreeData.FindReturnsTheNode | src/components/Tree/Tree.tsx:94-112 | with distinct ids, looking up any node's id returns that very node |
| TreeData.VisibleList | src/components/Tree/Tree.tsx:409-418 | the rendered items of a forest in document order: each node, then its children's items only while it has a non-empty `children` array and its id is in the open list; its properties are the lemmas below |
| TreeData.Visible | src/components/Tree/Tree.tsx:566-574 | the `querySelectorAll` item list of the tree: the items rendered below the root, the root itself never being an item |
| TreeData.VisibleAmongIds | src/components/Tree/Tree.tsx:570-574 | every rendered id is an id of the forest |
| TreeData.VisibleWhenAllClosed | src/components/Tree/Tree.tsx:409-418 | with nothing open exactly the top-level items are rendered |
| TreeData.VisibleDependsOnMembership | src/components/Tree/Tree.tsx:417 | the rendered items depend only on which ids are open, not on their order or repetition |
| TreeData.VisibleMonotone | src/components/Tree/Tree.tsx:486-490 | opening more ids never hides a rendered item |
| TreeData.VisibleKeepsItself | src/components/Tree/Tree.tsx:486-490 | changing a node's own membership never hides that node |
| TreeData.VisibleDistinct | src/components/Tree/Tree.tsx:161-171 | with distinct ids the rendered id list has no repetition |
| TreeData.VisibleSegment | src/components/Tree/Tree.tsx:486-490 | an expanded node that is rendered is followed directly by the rendered items of its subtree, as one contiguous run |
| TreeData.VisibleNext | src/components/Tree/Tree.tsx:486-490 | the item rendered right after an expanded node is its first child |
| NavigationProps.VisibleIsFound | src/components/Tree/Tree.tsx:238-241 | every rendered id is found by the lookup from the root |
| NavigationProps.VisibleOfRootDistinct | src/components/Tree/Tree.tsx:161-171 | with unique ids the rendered items are pairwise different |
| NavigationProps.FocusedBelowRoot | src/components/Tree/Tree.tsx:83-85 | a consistent rendered focused node is one of the root's descendants |
| Seqs.IndexOf | src/components/Tree/Tree.tsx:223 | `indexOf`: a result between -1 and the last index; the first position holding the value, or -1 exactly when it is absent |
| OpenList.SpliceOne | src/components/Tree/Tree.tsx:142 | `splice(start, 1)` on a copy, with JavaScript's rule that a negative start counts from the end |
| OpenList.Toggled | src/components/Tree/Tree.tsx:137-151 | `handleSetOpenTreeItemIds`: splice at `indexOf(id)` when called with `open`, else push; its properties are the OpenList lemmas below |
| TreeNavigator.TreeNav.HandleSetOpenTreeItemIds | src/components/Tree/Tree.tsx:137-151 | the new open list is the old one with `splice(indexOf(id), 1)` applied or `id` pushed; the focus is unchanged |
| OpenList.CloseRemovesOne | src/components/Tree/Tree.tsx:142 | closing a listed id removes exactly one occurrence and keeps every other entry in order |
| OpenList.OpenAddsOne | src/components/Tree/Tree.tsx:145 | opening adds exactly one occurrence and keeps every other entry in order |
| OpenList.ToggleFlips | src/components/Tree/Tree.tsx:126 | the toggle called with the current membership keeps the other entries in order, changes the count by one, and flips membership while the id is listed at most once |
| OpenList.ToggleTwiceRestores | src/components/Tree/Tree.tsx:137-151 | toggling the same id twice restores its membership and the other entries |
| OpenList.OpenThenCloseRestores | src/components/Tree/Tree.tsx:137-151 | opening an unlisted id and closing it again gives back the exact list |
| OpenList.CloseAbsentDropsLast | src/components/Tree/Tree.tsx:142 | closing an unlisted id drops the last entry (`splice(-1, 1)`), which is why callers pass the current membership |
| OpenList.CloseDuplicateStaysOpen | src/components/Tree/Tree.tsx:294 | an id listed twice is still open after one close |
| OpenList.ToggleKeepsOthers | src/components/Tree/Tree.tsx:137-151 | every other id keeps its membership |
| Navigation.ConfirmFocus | src/components/Tree/Tree.tsx:120-129 | `confirmFocus` on the state: focus the node and, when toggling is asked and it has a `children` field, toggle its id with its current membership (`ConfirmToggle`) |
| TreeNavigator.TreeNav.ConfirmFocus | src/components/Tree/Tree.tsx:120-129 | the new state is `Navigation.ConfirmFocus` of the old one: the node is focused and toggled when asked and it has a `children` field |
| NavigationProps.ConfirmToggle | src/components/Tree/Tree.tsx:120-129 | the node is focused; its membership flips iff it has a `children` field (listed at most once); no other id changes membership |
| TreeNavigator.TreeNav.GetParentOfTreeNodeWithId | src/components/Tree/Tree.tsx:179-210 | returns `ParentScan`: the root for a top-level item unless for ArrowLeft, nothing when the id is not rendered, else the result of the backward loop |
| TreeNavigator.TreeNav.ScanBackwards | src/components/Tree/Tree.tsx:197-206 | the backward loop with `break` over the items before the focused one returns `Scan`: the looked-up node of the nearest preceding item whose child list holds the item |
| Parents.Container | src/components/Tree/Tree.tsx:199-201 | the `contains(activeElement)` test: the candidate is open with children and the focused item is rendered inside its child list |
| Parents.Scan | src/components/Tree/Tree.tsx:197-206 | the backward `for` loop: the lookup of the last scanned item that contains the focused item, or nothing |
| Parents.ParentScan | src/components/Tree/Tree.tsx:179-210 | `getParentOfTreeNodeWithId`: the root for a top-level item unless for ArrowLeft, else the scan of the items before the item; proved equal to the tree parent by `ParentScanIsTreeParent` |
| Parents.ScanResult | src/components/Tree/Tree.tsx:197-206 | a node the scan returns is the looked-up node of a scanned item whose child list holds the focused item |
| Parents.ParentIn | src/components/Tree/Tree.tsx:179-210 | reference parent: a node of the forest listing the item among its children |
| Parents.ParentInIds | src/components/Tree/Tree.tsx:179-210 | an item has a parent in a forest iff it is a node of the forest and not a top-level one |
| Parents.TopHasNoParent | src/components/Tree/Tree.tsx:189-195 | with unique ids a top-level item has no parent among the descendants |
| Parents.ScanFindsParent | src/components/Tree/Tree.tsx:197-207 | scanning the items rendered before an item finds exactly its parent in the forest |
| Parents.ScanBeforeItem | src/components/Tree/Tree.tsx:197-207 | scanning the rendered items before a rendered item of a unique-id tree, from its `indexOf` position, yields its parent among the root's descendants |
| Parents.ParentScanIsTreeParent | src/components/Tree/Tree.tsx:179-210 | for a rendered item of a unique-id tree the scan returns the tree parent (the root for a top-level item), and nothing for a top-level item under ArrowLeft |
| Navigation.Step | src/components/Tree/Tree.tsx:217-300 | `handleKeyDown` as a function of the state and the key; `StepKeepsConsistent` and `StepKeepsShown` state its invariants |
| Navigation.Vertical | src/components/Tree/Tree.tsx:220-243 | Tab, Shift+Tab, ArrowDown, ArrowUp: `indexOf` of the focus plus or minus one, the lookup of that item, arrows stopping on a missing or falsy target (`VerticalMoves`) |
| Navigation.Activate | src/components/Tree/Tree.tsx:244-250 | Space and Enter: the focused id looked up again and confirmed with toggling (`ActivateToggles`) |
| Navigation.Right | src/components/Tree/Tree.tsx:255-273 | ArrowRight: a closed node with a `children` field is toggled, an open one moves to the lookup inside it of the next item (`RightOpensClosed`, `RightEntersFirstChild`) |
| Navigation.Left | src/components/Tree/Tree.tsx:274-281 | ArrowLeft: an open focused node is toggled, else the scanned parent is focused when it has children (`LeftClosesOpen`, `LeftMovesToParent`) |
| Navigation.ExpandableIds | src/components/Tree/Tree.tsx:287-292 | the filter and map of `*`: the ids of the children with a `children` field, other than the focused one, in order (`ExpandableIdsMembers`) |
| Navigation.Star | src/components/Tree/Tree.tsx:284-295 | `*`: those ids appended to the open list when there are any (`StarOpensSiblings`) |
| TreeNavigator.TreeNav.constructor | src/components/Tree/Tree.tsx:79-85 | the initial state has nothing open and nothing focused, and satisfies the invariants |
| TreeNavigator.TreeNav.HandleKeyDown | src/components/Tree/Tree.tsx:217-300 | the new state is `Step` of the old state and the key; the lookup consistency and the focused item being rendered are preserved |
| TreeNavigator.TreeNav.MoveVertically | src/components/Tree/Tree.tsx:220-243 | the new state is `Vertical` of the old one |
| TreeNavigator.TreeNav.Activate | src/components/Tree/Tree.tsx:244-250 | the new state is `Activate` of the old one |
| TreeNavigator.TreeNav.MoveRight | src/components/Tree/Tree.tsx:255-273 | the new state is `Right` of the old one |
| TreeNavigator.TreeNav.MoveLeft | src/components/Tree/Tree.tsx:274-281 | the new state is `Left` of the old one |
| TreeNavigator.TreeNav.ExpandSiblings | src/components/Tree/Tree.tsx:284-295 | the new state is `Star` of the old one |
| NavigationProps.VerticalMoves | src/components/Tree/Tree.tsx:220-243 | the open list is unchanged; the focus moves exactly one rendered position; out of range, or at id 0, an arrow does nothing; Tab out of range clears the focus |
| NavigationProps.ArrowDownFromNothing | src/components/Tree/Tree.tsx:222-223 | with nothing focused ArrowDown focuses the first rendered item |
| NavigationProps.ActivateToggles | src/components/Tree/Tree.tsx:244-250 | Space/Enter keep the focus and flip the focused node's membership iff it has a `children` field; no other id changes; nothing focused means nothing changes |
| NavigationProps.RightOpensClosed | src/components/Tree/Tree.tsx:256-258 | on a closed node with a `children` field ArrowRight appends its id and keeps the focus |
| NavigationProps.RightEntersFirstChild | src/components/Tree/Tree.tsx:259-271 | on an open node with children ArrowRight focuses its first child and leaves the open list alone |
| NavigationProps.RightOnEmptyOpenLosesFocus | src/components/Tree/Tree.tsx:259-271 | on an open node with an empty `children` array ArrowRight clears the focus |
| NavigationProps.RightOnLeafStays | src/components/Tree/Tree.tsx:255-273 | on a node without a `children` field, or with nothing focused, ArrowRight changes nothing |
| NavigationProps.LeftClosesOpen | src/components/Tree/Tree.tsx:275-278 | on an open focused node ArrowLeft keeps the focus and removes one occurrence of its id |
| NavigationProps.LeftMovesToParent | src/components/Tree/Tree.tsx:279-280 | otherwise ArrowLeft focuses the tree parent, which lists the item among its children, and does nothing on a top-level item |
| NavigationProps.ExpandableIdsMembers | src/components/Tree/Tree.tsx:287-292 | an id is appended iff it belongs to a child with a `children` field other than the focused one |
| NavigationProps.StarOpensSiblings | src/components/Tree/Tree.tsx:284-295 | `*` appends the ids of the tree parent's expandable children except the focused one, never removes an id, and never moves the focus |
| NavigationProps.StepKeepsConsistent | src/components/Tree/Tree.tsx:217-300 | every key keeps the focused node equal to what the lookup returns for its id |
| NavigationProps.StepKeepsShown | src/components/Tree/Tree.tsx:217-300 | every key keeps the focused node among the rendered items |
| NavigationProps.ActivateKeepsShown | src/components/Tree/Tree.tsx:120-129 | toggling the focused node keeps it rendered |
| NavigationProps.GrowKeepsShown | src/components/Tree/Tree.tsx:293-294 | appending ids to the open list keeps the focused node rendered |
| Navigation.Click | src/components/Tree/Tree.tsx:449-451 | a click on an item's label: `confirmFocus(node)` with toggling |
| NavigationProps.ClickKeepsInvariant | src/components/Tree/Tree.tsx:449-451 | a click on a rendered node leaves a consistent, rendered focus, whatever was focused before |
| TreeNavigator.TreeNav.Click | src/components/Tree/Tree.tsx:449-451 | a click on a rendered node focuses it, toggling it when it has a `children` field, keeps the lookup consistent and leaves the focus rendered, whatever was focused before |
| Navigation.FocusEnter | src/components/Tree/Tree.tsx:658-665 | entering the tree at its first item focuses what the lookup returns for the hard-coded id 1 |
| TreeNavigator.TreeNav.HandleFocus | src/components/Tree/Tree.tsx:658-665 | entering the tree at its first item focuses the node with id 1, keeps the lookup consistent, and leaves the focus rendered when the first rendered item has id 1; focus arriving elsewhere changes no state |
| NavigationProps.FocusEnterShown | src/components/Tree/Tree.tsx:658-665 | when the first rendered item has id 1, entering the tree focuses exactly that item's node, which is rendered |
| NavigationProps.FocusEnterCanHide | src/components/Tree/Tree.tsx:660 | in a unique-id tree not numbered in pre-order, the hard-coded id 1 focuses a node that is not rendered |
| Navigation.TabIndex | src/components/Tree/Tree.tsx:433 | an item's tabindex: 0 when it is the focused one, or the first while nothing is focused, else -1 (`SingleTabStop`) |
| NavigationProps.SingleTabStop | src/components/Tree/Tree.tsx:433 | over distinct items exactly one has tabindex 0: the focused one, or the first while nothing is focused |
| NavigationProps.TreeHasSingleTabStop | src/components/Tree/Tree.tsx:621-632 | in a unique-id tree with the focused node rendered, exactly one rendered item is a tab stop |
| Numbering.NumberList | src/components/Tree/Tree.stories.tsx:51-67 | numbering keeps the number of trees |
| Numbering.NumberedIds | src/components/Tree/Tree.stories.tsx:55-63 | the ids of a forest numbered from `k` are exactly `k, k+1, ...`, one per node in pre-order |
| Numbering.NumberedPosition | src/components/Tree/Tree.stories.tsx:55-63 | each node's id is the number of nodes before it in pre-order |
| Numbering.NumberedTreeIds | src/components/Tree/Tree.stories.tsx:55-63 | a numbered tree of n nodes has ids 0 .. n-1, all distinct |
| Numbering.NumberingKeepsShape | src/components/Tree/Tree.stories.tsx:56 | only ids change: shape, order and values are kept |
| Numbering.NumberedRootAndFirstChild | src/components/Tree/Tree.stories.tsx:54-57 | the root gets 0 and the first child of a root with children gets 1 |
| Numbering.NumberedFirstItem | src/components/Tree/Tree.stories.tsx:55-63 | in a numbered tree the first rendered item is id 1, the lookup for 1 returns it, and id 0 is never rendered |
| Numbering.Number | src/components/Tree/Tree.stories.tsx:51-67 | the tree numbered from 0 in pre-order, as the helper leaves it |
| Numbering.NumberedFocusEnter | src/components/Tree/Tree.tsx:658-665 | in a numbered tree with children, entering the tree focuses the first child, which is rendered whatever is open |
| Numbering.TreeObject.Traverse | src/components/Tree/Tree.stories.tsx:55-63 | writing the counter, then visiting the children, turns the object tree into its numbering from the counter and returns the counter advanced by the node count |
| Numbering.TreeObject.VisitChildren | src/components/Tree/Tree.stories.tsx:58-62 | the loop visits every child in order, each numbered from where the previous stopped |
| Numbering.AddIdAttributesToTreeNodes | src/components/Tree/Tree.stories.tsx:51-67 | the same object is returned, numbered from 0 |
| CheckboxState.Flag | src/components/Checkbox/Checkbox.tsx:39-43 | the destructuring default: a given flag as given, an absent one as false (`DefaultsAreFalse`) |
| CheckboxState.HasValue | src/components/Checkbox/Checkbox.tsx:51 | true when `checked` or `indeterminate` is set (`HasValueMatchesAriaChecked`) |
| CheckboxState.AriaChecked | src/components/Checkbox/Checkbox.tsx:52-56 | the tri-state `aria-checked` (`AriaCheckedStates`) |
| CheckboxState.IsWhitespace | src/components/Checkbox/Checkbox.tsx:57 | the characters JavaScript's `\s` matches, which the label id never holds (`LabelIdHasNoWhitespace`) |
| CheckboxState.Color | src/components/Checkbox/Checkbox.tsx:58 | "emerald", or "rose" when `error` is set (`ColorAndMirrors`) |
| CheckboxState.BoolAttribute | src/components/Checkbox/Checkbox.tsx:74-75 | a boolean written into an `aria-*` attribute as "true" or "false" (`ColorAndMirrors`) |
| CheckboxState.AriaDisabled | src/components/Checkbox/Checkbox.tsx:74 | the `aria-disabled` attribute written from `disabled` (`ColorAndMirrors`) |
| CheckboxState.AriaInvalid | src/components/Checkbox/Checkbox.tsx:75 | the `aria-invalid` attribute written from `error` (`ColorAndMirrors`) |
| CheckboxState.HandleChange | src/components/Checkbox/Checkbox.tsx:60-62 | `onChange` applied to the caller's state unless disabled (`ChangeCallsOnce`) |
| CheckboxState.HandleKeyDown | src/components/Checkbox/Checkbox.tsx:64-68 | the change handler run for " " and "Enter" on an enabled checkbox only (`KeyDownGating`) |
| CheckboxState.DefaultsAreFalse | src/components/Checkbox/Checkbox.tsx:38-43 | absent flags read as false: unchecked, enabled, valid |
| CheckboxState.AriaCheckedStates | src/components/Checkbox/Checkbox.tsx:52-56 | `aria-checked` is "mixed" iff indeterminate, "true" iff checked and not indeterminate, else "false" |
| CheckboxState.HasValueMatchesAriaChecked | src/components/Checkbox/Checkbox.tsx:51 | `hasValue` holds iff `aria-checked` is not "false" |
| CheckboxState.LabelId | src/components/Checkbox/Checkbox.tsx:57 | same length; each whitespace character becomes '-', every other character is kept |
| CheckboxState.LabelIdHasNoWhitespace | src/components/Checkbox/Checkbox.tsx:57 | the label id holds no whitespace and equals the label wherever the label had none |
| CheckboxState.LabelIdIdempotent | src/components/Checkbox/Checkbox.tsx:57 | rewriting twice equals rewriting once; a label without whitespace is its own id |
| CheckboxState.ColorAndMirrors | src/components/Checkbox/Checkbox.tsx:58 | the colour is "rose" iff error, else "emerald"; `aria-invalid` and `aria-disabled` mirror the flags |
| CheckboxState.ChangeCallsOnce | src/components/Checkbox/Checkbox.tsx:60-62 | a disabled checkbox never calls `onChange`; an enabled one calls it exactly once |
| CheckboxState.KeyDownGating | src/components/Checkbox/Checkbox.tsx:64-68 | only " " and "Enter" act, as a click does; other keys and a disabled checkbox change nothing |
| CheckboxState.ControlledClick | src/components/Checkbox/Checkbox.test.tsx:76-94 | in the controlled wrapper a click flips `aria-checked` unless disabled, and two clicks restore it |

## Left out

- A node whose `children` property exists but holds `undefined` cannot be expressed: `Children` is either absent or an array. The source treats such a node two ways. `'children' in node` holds, so Space, Enter and ArrowRight toggle it (`Tree.tsx:125`, 256). `n.children` is falsy, so `*` skips it (`Tree.tsx:290`). The model's single `HasChildrenField` test stands for both.
- TreeNavigator.TreeNav.HandleFocus: keeps the focus rendered only when the first rendered item has id 1, as in numbered trees (`NumberedFocusEnter`). The id 1 is hard-coded (`Tree.tsx:660`), so in a tree with other ids it can focus a hidden node (`FocusEnterCanHide`). The invariant `Shown` is therefore not promised after it.
- DOM access: `querySelectorAll`, `document.activeElement`, `contains`, `setAttribute('tabindex')` and `.focus()` (`Tree.tsx:161-171`, 621-638, 658-665). These are replaced by the derived `Visible` list and the focused node. Moving the platform focus is a browser side effect.
- The `tabindex` override of `handleFocus` and of `onBlur` (`Tree.tsx:661-664`, 669-671). Only the derived tab index of `TreeItem` and the first-item default are modelled (`TabIndex`).
- `querySelector` on duplicate DOM ids: the DOM finds the first element, while the model uses the id list. The two agree when ids are unique, which the invariant `Valid` demands.
- Touch handling: the `touchstart`/`touchend` listeners, the 2000 ms `setTimeout` and the `userAgent` test (`Tree.tsx:639-657`). These depend on timers and the platform.
- React plumbing: the context, `useMemo`/`useCallback` dependency lists, `forwardRef`/`createRef`, and `setData` when the root changes.
  - The model's root is fixed for the lifetime of a `TreeNav`.
  - The code does not reset the open list or the focus on a root swap, so the model has no reset either.
- The `li`/`a` element choice: it only moves the child list in the markup.
- CSS class strings, icons, the highlight and `inCurrentDirectory` borders, and the `Button`, `Card` and Tailwind files. They are styling only.
- Keys other than those the container forwards become `Other`, which changes nothing. The `?? 1` after `indexOf` (`Tree.tsx:223`) never applies, since `indexOf` never returns null or undefined.
- An object tree in which one object appears twice (aliasing) is outside `Numbering.TreeObject.Valid`. In such a tree the source would number a shared object twice.
- Icon payloads (`icon`, `altIcon`) are not part of the node datatype; the numbering keeps them by construction, since only `id` is written.
- Checkbox click bubbling: the outer span and the label both call `handleChange` (`Checkbox.tsx:71`, 109). Counting calls per DOM click depends on event propagation, which is not modelled. `HandleChange` models one call of the handler.
- `onChange` is modelled as a function on the caller's state; side effects beyond that state are not modelled.
