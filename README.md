# ConsoleFramework window stack and tree view projection, in Dafny

This project models two parts of the ConsoleFramework console UI toolkit and
proves properties of the model.

**The window stack of `WindowsHost`** (`ConsoleFramework/Controls/WindowsHost.cs`).
The host's `Children` list holds the optional main menu at index 0. The
windows follow in Z-order, with the last one on top. The `windowInfos`
dictionary keeps the `Modal` and `OutsideClickClosesWindow` flags of every
shown window. The module `WindowStack` gives each operation as a function on
a `Host` value: `Activate`, `Shown`, `Close`, `WithMainMenu`, `MenuActivated`,
`PreviewMouseDown` and `Placement`. It also has a class `WindowsHost` whose
methods update the fields in place, with the source's loops, and are proved
to reach the state those functions give. The routed events the host raises
and its calls into the focus manager are appended to an event log. What the
visual tree and the focus manager would answer is passed in as a parameter.
The invariant `Consistent` says:
- no child occurs twice;
- the menu sits at index 0;
- the windows among the children are exactly the keys of `windowInfos`;
- the window the log last activated is the top window.

**The flat projection of `TreeView`** (`ConsoleFramework/Controls/TreeView.cs`).
`treeItemsFlat` lists the visible items. Each item caches its own index in
`Position` and its depth in `Level`. `listBox.Items` holds one display title
per entry, and `listBox.DisabledItemsIndexes` sits beside it. The modules are:
- `TreeItems`: `GetDisplayTitle` and `HasChildren`.
- `TreeProjection`: the state, the invariant `Valid` (every visible item
  caches its own index, and there is one line per entry), `expand` and
  `collapse` as functions, and their round trip.
- `TreeToggle` and `ExpandCollapse`: `expandCollapse`. Its loops over the
  children are folds whose closed forms are proved.
- `TreeViews`: a class `TreeView` whose methods run `expand`, `collapse` and
  `expandCollapse` with the source's loops. Each method is proved to leave
  exactly the state the functions describe.
- `TreeChanges`: `ItemsOnListChanged` for the root list, covering insertion,
  removal and the `NotSupportedException` for any other change.
- `TreeFindings`: two defects of the source, each with a small tree that
  shows it and a corrected collapse that is proved to keep the invariant.
- `Seqs`: the `List<T>` operations the code relies on (`IndexOf`, `Remove`,
  `Insert`, `RemoveAt`) and sequence lemmas.

Some behaviour of the source is modelled as written:
- root insertion puts a new root in front of its previous sibling, and a run
  of inserted roots lands reversed;
- `DisabledItemsIndexes` is never shifted when entries move;
- `collapse` removes `index + 1` once per disabled child, while `expand` adds
  `i + index + 1`.

## Model

| member | source | states |
|---|---|---|
| TreeItems.DisplayTitle | ConsoleFramework/Controls/TreeView.cs:26-32 | the title is 2·Level spaces, then the arrow for the Expanded state when the item has children and a space otherwise, then a space and the Title |
| TreeItems.Spaces | ConsoleFramework/Controls/TreeView.cs:28 | `new string(' ', n)` has length n and holds only spaces |
| TreeItems.TitleShowsExpandedOnlyWithChildren | ConsoleFramework/Controls/TreeView.cs:27-31 | the titles for Expanded true and false differ exactly when the item has children |
| TreeProjection.ValidNoDup | ConsoleFramework/Controls/TreeView.cs:165 | in a valid projection no item is listed twice |
| TreeProjection.VisibleAt | ConsoleFramework/Controls/TreeView.cs:20-22 | a visible item's cached Position is an index of treeItemsFlat that holds that item |
| TreeProjection.IndexOfPosition | ConsoleFramework/Controls/TreeView.cs:168 | for a visible item, `treeItemsFlat.IndexOf(item)` equals its cached Position |
| TreeProjection.SelectedItem | ConsoleFramework/Controls/TreeView.cs:79-83 | the result is present exactly when the selected index lies inside treeItemsFlat, and then it is the item whose Position is that index |
| TreeProjection.ChildTitles | ConsoleFramework/Controls/TreeView.cs:176 | one title per child, each the child's display title at the new level |
| TreeProjection.DisabledSlots | ConsoleFramework/Controls/TreeView.cs:177 | every disabled index added while expanding lies among the slots of the inserted children |
| TreeProjection.DisabledSlotsExact | ConsoleFramework/Controls/TreeView.cs:177 | expand adds one disabled index per disabled child, in increasing order, and the slot of child j is among them exactly when child j is disabled |
| TreeProjection.Deepen | ConsoleFramework/Controls/TreeView.cs:173 | the children get the item's Level + 1 and no item is added to or dropped from the Level map |
| TreeProjection.RemoveSlots | ConsoleFramework/Controls/TreeView.cs:188 | removing one index per disabled child never makes the disabled list longer |
| TreeProjection.RemoveSlotsCounts | ConsoleFramework/Controls/TreeView.cs:188 | collapse removes index + 1 once per disabled child: every other index keeps its count, and the count of index + 1 drops by the number of disabled children, but not below 0 |
| TreeProjection.Expand | ConsoleFramework/Controls/TreeView.cs:167-182 | no contract of its own: ExpandEntries states its effect entry by entry, ExpandKeepsValid that it keeps the invariant, ExpandFrames what it leaves alone |
| TreeProjection.ExpandEntries | ConsoleFramework/Controls/TreeView.cs:167-182 | after expand, treeItemsFlat and the lines grow by the child count; every entry, Position and line up to the item is unchanged; child j sits at index + 1 + j with that Position, Level item + 1 and its display title; every later entry moves down by the child count with its Position and line |
| TreeProjection.ExpandFrames | ConsoleFramework/Controls/TreeView.cs:167-182 | expand keeps the items of the Position map, keeps every hidden item's Position and changes no Level but the children's |
| TreeProjection.ExpandKeepsValid | ConsoleFramework/Controls/TreeView.cs:167-182 | expanding a visible item whose children are distinct and hidden keeps every cached Position equal to its index |
| TreeProjection.ExpandKeepsShown | ConsoleFramework/Controls/TreeView.cs:176 | after expand every line of the list box is still the display title of its entry |
| TreeProjection.Collapse | ConsoleFramework/Controls/TreeView.cs:184-195 | no contract of its own: CollapseEntries states its effect entry by entry, CollapseKeepsValid that it keeps the invariant, CollapseUndoesExpand that it undoes expand |
| TreeProjection.CollapseEntries | ConsoleFramework/Controls/TreeView.cs:184-195 | after collapse, treeItemsFlat and the lines shrink by the child count; every entry, Position and line up to the item is unchanged; no child is listed and each holds Position -1; every entry after the children moves up by the child count with its Position and line |
| TreeProjection.CollapseFrames | ConsoleFramework/Controls/TreeView.cs:184-195 | collapse sets every child's Position to -1 and keeps every hidden item's Position |
| TreeProjection.CollapseKeepsValid | ConsoleFramework/Controls/TreeView.cs:184-195 | collapsing a visible item whose children follow it keeps the projection invariant and every hidden item's Position |
| TreeProjection.CollapseKeepsShown | ConsoleFramework/Controls/TreeView.cs:189 | after collapse every line is still the title of its entry |
| TreeProjection.ExpandThenCanCollapse | ConsoleFramework/Controls/TreeView.cs:167-195 | after expand the item keeps its Position and collapse may run on it |
| TreeProjection.CollapseUndoesExpand | ConsoleFramework/Controls/TreeView.cs:167-195 | collapse after expand restores treeItemsFlat, the list box lines and every Position, when the children held -1 before |
| TreeToggle.Kids | ConsoleFramework/Controls/TreeView.cs:216-217 | what one child shows beneath it are items of the tree |
| TreeToggle.Blocks | ConsoleFramework/Controls/TreeView.cs:209-219 | what an expanded item shows are items of the tree |
| TreeToggle.BlocksMultiset | ConsoleFramework/Controls/TreeView.cs:209-219 | what an item shows is exactly its children plus what its expanded children show |
| TreeToggle.BlocksFrame | ConsoleFramework/Controls/TreeView.cs:206-211 | what the children show depends on the children's flags only, not on the item's own |
| TreeToggle.InBlocks | ConsoleFramework/Controls/TreeView.cs:209-219 | an item is shown beneath the children exactly when it is a child or shown by an expanded child |
| TreeToggle.BlocksNoDup | ConsoleFramework/Controls/TreeView.cs:209-219 | when what is shown has no duplicates, neither do the children, and no grandchild is also a child |
| TreeToggle.ExpandChildren | ConsoleFramework/Controls/TreeView.cs:216-218 | expanding every flagged child in turn keeps the invariant and leaves the children followed by what each shows between the parts before and after them, with no shown Level or hidden Position changed |
| TreeToggle.ExpandChildrenShown | ConsoleFramework/Controls/TreeView.cs:216-218 | the children's expand loop keeps every line equal to its entry's title |
| TreeToggle.ExpandChildrenLevels | ConsoleFramework/Controls/TreeView.cs:216-218 | the loop expanding the flagged children gives every child shown beneath a flagged child that child's Level + 1 |
| TreeToggle.CollapseChildren | ConsoleFramework/Controls/TreeView.cs:201-203 | collapsing every flagged child in turn keeps the invariant, leaves only the children between the surrounding parts and parks the grandchildren at -1 |
| TreeToggle.CollapseChildrenShown | ConsoleFramework/Controls/TreeView.cs:201-203 | the children's collapse loop keeps every line equal to its entry's title |
| ExpandCollapse.SetFlag | ConsoleFramework/Controls/TreeView.cs:206-213 | no contract of its own: SetFlagKeepsValid and SetFlagKeepsShown state that it keeps the invariant and the lines right |
| ExpandCollapse.SetFlagKeepsValid | ConsoleFramework/Controls/TreeView.cs:206-208 | setting Expanded and rewriting the item's line keeps the invariant |
| ExpandCollapse.SetFlagKeepsShown | ConsoleFramework/Controls/TreeView.cs:206-213 | the rewritten line is the title for the new flag, so every line matches its entry |
| ExpandCollapse.ExpandBranch | ConsoleFramework/Controls/TreeView.cs:209-219 | expanding a collapsed item sets its flag, splices in everything it shows right after it, keeps the item's Position, every shown Level and every hidden Position, and keeps the lines right |
| ExpandCollapse.ExpandBranchDeepens | ConsoleFramework/Controls/TreeView.cs:209-219 | after the expanding branch every child holds Level item + 1, and every child of an Expanded child holds Level item + 2 |
| ExpandCollapse.CollapseBranch | ConsoleFramework/Controls/TreeView.cs:199-208 | collapsing an expanded item clears its flag, cuts everything it showed, parks those items at -1 and keeps Level, the item's Position and every hidden Position |
| ExpandCollapse.CollapseBranchShown | ConsoleFramework/Controls/TreeView.cs:199-208 | after the collapsing branch every line is its entry's title |
| ExpandCollapse.Toggle | ConsoleFramework/Controls/TreeView.cs:197-220 | expandCollapse keeps the invariant, inverts only the item's flag and keeps its Position |
| ExpandCollapse.ToggleKeepsShown | ConsoleFramework/Controls/TreeView.cs:197-220 | expandCollapse keeps every line equal to its entry's title |
| ExpandCollapse.ExpandedCanToggle | ConsoleFramework/Controls/TreeView.cs:209-219 | after expanding, the item may be toggled back and shows the same entries |
| ExpandCollapse.ExpandThenCollapse | ConsoleFramework/Controls/TreeView.cs:197-220 | collapsing after expanding restores treeItemsFlat, the flags, the shown Levels and the lines; what was shown in between now holds Position -1 |
| ExpandCollapse.ToggleTwiceRestores | ConsoleFramework/Controls/TreeView.cs:197-220 | two expandCollapse calls from a collapsed item restore treeItemsFlat, flags, shown Levels and lines; Positions are restored except that the shown items now hold -1 |
| ExpandCollapse.ToggleTwiceKeepsPositions | ConsoleFramework/Controls/TreeView.cs:197-220 | when the items to be shown held -1 before, two expandCollapse calls restore every Position |
| TreeViews.ShiftLoop | ConsoleFramework/Controls/TreeView.cs:179-181 | the shifting loop adds d to the Position of every entry from the given index on |
| TreeViews.ChildrenLoop | ConsoleFramework/Controls/TreeView.cs:169-178 | the loop inserts the children, their titles and disabled slots after the item and sets their Position and Level |
| TreeViews.ExpandLoops | ConsoleFramework/Controls/TreeView.cs:167-182 | expand's two loops reach exactly the state Expand gives and leave items, roots and flags alone |
| TreeViews.CutLoop | ConsoleFramework/Controls/TreeView.cs:186-191 | the loop cuts one entry and line per child after the item, removes one disabled index per disabled child and parks the children at -1 |
| TreeViews.CollapseLoops | ConsoleFramework/Controls/TreeView.cs:184-195 | collapse's two loops reach exactly the state Collapse gives and leave items, roots, levels and flags alone |
| TreeViews.CollapseChildrenLoop | ConsoleFramework/Controls/TreeView.cs:201-203 | the loop over the flagged children reaches the state the fold CollapseChildren gives |
| TreeViews.ExpandChildrenLoop | ConsoleFramework/Controls/TreeView.cs:216-218 | the loop over the flagged children reaches the state the fold ExpandChildren gives |
| TreeViews.CollapseBranchLoops | ConsoleFramework/Controls/TreeView.cs:199-208 | the collapsing branch as statements reaches exactly CollapseBranch |
| TreeViews.ExpandBranchLoops | ConsoleFramework/Controls/TreeView.cs:209-219 | the expanding branch as statements reaches exactly ExpandBranch |
| TreeViews.ToggleLoops | ConsoleFramework/Controls/TreeView.cs:197-220 | expandCollapse as statements reaches exactly Toggle |
| TreeViews.TreeView.ExpandItem | ConsoleFramework/Controls/TreeView.cs:167-182 | the object's new fields are Expand of the old ones |
| TreeViews.TreeView.CollapseItem | ConsoleFramework/Controls/TreeView.cs:184-195 | the object's new fields are Collapse of the old ones |
| TreeViews.TreeView.ExpandCollapseItem | ConsoleFramework/Controls/TreeView.cs:197-220 | the object's new fields are Toggle of the old ones |
| TreeChanges.InsertRoot | ConsoleFramework/Controls/TreeView.cs:126-137 | one insert turn fails only with an index out of range, and otherwise adds exactly one entry and keeps items, roots, levels and flags; the entry and its title go in at the root's cached Position after the shifting loop, so that Position points at the new entry |
| TreeChanges.InsertRun | ConsoleFramework/Controls/TreeView.cs:125-141 | the insert loop fails only with an index out of range, and otherwise adds one entry per inserted root |
| TreeChanges.RemoveRoot | ConsoleFramework/Controls/TreeView.cs:145-152 | one remove turn fails only with an index out of range, and otherwise keeps items, roots, levels and flags |
| TreeChanges.RemoveRun | ConsoleFramework/Controls/TreeView.cs:145-156 | the remove loop fails only with an index out of range, and otherwise keeps items, roots, levels and flags |
| TreeChanges.Handle | ConsoleFramework/Controls/TreeView.cs:122-163 | the handler throws NotSupportedException exactly for a change that is neither an insertion nor a removal |
| TreeChanges.InsertRootKeepsValid | ConsoleFramework/Controls/TreeView.cs:126-137 | inserting a hidden root keeps the invariant and puts the root into treeItemsFlat at its previous sibling's Position, or 0 |
| TreeChanges.InsertRootKeepsShown | ConsoleFramework/Controls/TreeView.cs:134 | the inserted line is the new root's title, so every line matches its entry |
| TreeChanges.InsertLandsBeforePrevious | ConsoleFramework/Controls/TreeView.cs:128-137 | a new root lands at its previous sibling's old index, and that sibling moves down by one |
| TreeChanges.InsertRunReversed | ConsoleFramework/Controls/TreeView.cs:124-142 | a run of hidden roots keeps the invariant and lands, in reverse order, at the Position of the root before the run |
| TreeChanges.CollapsePhase | ConsoleFramework/Controls/TreeView.cs:146-147 | collapsing an expanded root before removal keeps it at its Position and cuts its children after it |
| TreeChanges.RemoveRootKeepsValid | ConsoleFramework/Controls/TreeView.cs:145-152 | removing a visible root, collapsed or with its children right after it, keeps the invariant and cuts the root and its children out of treeItemsFlat |
| TreeChanges.RemoveRootKeepsShown | ConsoleFramework/Controls/TreeView.cs:148-149 | removal takes out an entry and its line together, so every line still matches its entry |
| TreeChanges.RemoveCollapsedRoot | ConsoleFramework/Controls/TreeView.cs:148-152 | removing a collapsed root keeps the invariant and takes exactly that root out of treeItemsFlat |
| TreeChanges.RemoveRunKeepsValid | ConsoleFramework/Controls/TreeView.cs:145-156 | removing a run of collapsed visible roots keeps the invariant and takes exactly those roots out |
| TreeFindings.CollapseEach | ConsoleFramework/Controls/TreeView.cs:201-203 | collapsing the flagged children as written never lengthens treeItemsFlat and keeps items, roots, levels and flags |
| TreeFindings.FoldAsWritten | ConsoleFramework/Controls/TreeView.cs:199-208 | the collapsing branch as written clears only the item's flag and keeps items, roots and levels |
| TreeFindings.ChainHangs | ConsoleFramework/Controls/TreeView.cs:197-220 | the chain 0→1→2→3 with 0, 1 and 2 expanded is a valid projection in which every entry is a root or a child of an entry listed before it |
| TreeFindings.RemoveLeavesOrphans | ConsoleFramework/Controls/TreeView.cs:145-152 | removing root 0 of the chain leaves treeItemsFlat as [2, 3], valid by Position but with entries that are neither roots nor children of an entry before them |
| TreeFindings.FoldDropsSibling | ConsoleFramework/Controls/TreeView.cs:186-190 | collapsing a root flagged Expanded whose children were never shown cuts its next sibling out of the list |
| TreeFindings.FoldOrphansGrandchild | ConsoleFramework/Controls/TreeView.cs:199-208 | on the chain, expandCollapse of root 0 yields [0, 3], in which entry 3 is neither a root nor a child of an entry before it |
| TreeFindings.FoldAsWrittenOnChain | ConsoleFramework/Controls/TreeView.cs:199-208 | on the chain, the collapsing branch as written leaves treeItemsFlat as [0, 3] |
| TreeFindings.DeeperRun | ConsoleFramework/Controls/TreeView.cs:24 | counts the entries that follow, as long as they are deeper than the given level, and stops at the first that is not |
| TreeFindings.CutRun | ConsoleFramework/Controls/TreeView.cs:186-194 | cutting a run after an entry and shifting the rest keeps the invariant and parks every item cut out at -1 |
| TreeFindings.CollapseShownKeepsValid | ConsoleFramework/Controls/TreeView.cs:184-195 | the corrected collapse keeps the invariant, the item and everything before it, and parks every item it hides at -1 |
| TreeFindings.CollapseShownCutsDeeper | ConsoleFramework/Controls/TreeView.cs:184-195 | the corrected collapse hides only entries deeper than the item, and the entry that then follows it is no deeper than the item |
| TreeFindings.FoldShown | ConsoleFramework/Controls/TreeView.cs:199-208 | the corrected collapsing branch keeps the invariant and clears only the item's flag |
| TreeFindings.RemoveRootShown | ConsoleFramework/Controls/TreeView.cs:145-152 | the corrected remove turn keeps the invariant and cuts the root and everything shown beneath it |
| TreeFindings.RemoveRootShownCutsDeeper | ConsoleFramework/Controls/TreeView.cs:145-152 | the corrected remove turn takes out the root and only entries deeper than it |
| TreeFindings.FoldShownOnChain | ConsoleFramework/Controls/TreeView.cs:199-208 | on the chain, the corrected branch leaves [0], in which every entry is a root or a child of an entry before it |
| TreeFindings.FoldShownKeepsSibling | ConsoleFramework/Controls/TreeView.cs:199-208 | on the tree with a flagged root whose children were never shown, the corrected branch keeps the sibling listed |
| TreeFindings.RemoveShownOnChain | ConsoleFramework/Controls/TreeView.cs:145-152 | on the chain, the corrected removal of root 0 leaves treeItemsFlat empty |
| TreeFindings.RemoveDropsSibling | ConsoleFramework/Controls/TreeView.cs:145-152 | on roots [0, 1] with 0→[2], 0 flagged Expanded and treeItemsFlat [0, 1], removing root 0 as written leaves treeItemsFlat empty although 1 is still a root |
| TreeFindings.RemoveShownKeepsSibling | ConsoleFramework/Controls/TreeView.cs:145-152 | on that tree the corrected removal of root 0 leaves [1] |
| Seqs.IndexOf | ConsoleFramework/Controls/TreeView.cs:168 | `List.IndexOf`: -1 exactly when the element is absent, otherwise the first index that holds it |
| Seqs.RemoveFirst | ConsoleFramework/Controls/TreeView.cs:188 | `List.Remove`: drops one occurrence when the element is present and changes nothing otherwise |
| Seqs.InsertAt | ConsoleFramework/Controls/TreeView.cs:171 | `List.Insert`: one element longer, with the new element at the given index |
| Seqs.RemoveAt | ConsoleFramework/Controls/TreeView.cs:187 | `List.RemoveAt`: one element shorter |
| Seqs.RemoveAtIndex | ConsoleFramework/Controls/TreeView.cs:148 | after `RemoveAt(i)` the entries before i are unchanged and every later entry moves up by one |
| Seqs.InsertAtIndex | ConsoleFramework/Controls/TreeView.cs:137 | after `Insert(i, x)` the entries before i are unchanged, x is at i and every later entry moves down by one |
| WindowStack.WindowAt | ConsoleFramework/Controls/WindowsHost.cs:76-78 | every child from the windows' start index on is a shown window |
| WindowStack.TopWindow | ConsoleFramework/Controls/WindowsHost.cs:242-252 | no contract of its own: TopWindowShown states what it returns |
| WindowStack.TopWindowShown | ConsoleFramework/Controls/WindowsHost.cs:242-252 | getTopWindow returns null exactly when no window is shown, and otherwise a shown window |
| WindowStack.IsTopWindowModal | ConsoleFramework/Controls/WindowsHost.cs:125-134 | no contract of its own: ModalTop states when it holds |
| WindowStack.ModalTop | ConsoleFramework/Controls/WindowsHost.cs:125-134 | isTopWindowModal holds exactly when some window is shown and the top one was shown modal |
| WindowStack.FocusChoice | ConsoleFramework/Controls/WindowsHost.cs:184-213 | the stored focus is restored exactly when it is connected, visible and focusable; otherwise the named child is focused when there is one, and otherwise the window becomes the focus scope |
| WindowStack.ActiveAppend | ConsoleFramework/Controls/WindowsHost.cs:118-119 | the active window after an event is the one last Activated, and none after a Deactivated |
| WindowStack.Activate | ConsoleFramework/Controls/WindowsHost.cs:105-123 | no contract of its own: ActivateKeepsConsistent, ActivateTop and ActivateBelowTop state its result and its events |
| WindowStack.ActivateTop | ConsoleFramework/Controls/WindowsHost.cs:116 | activating the top window changes nothing |
| WindowStack.ActivateBelowTop | ConsoleFramework/Controls/WindowsHost.cs:116-122 | activating a window below the top raises Deactivated on the old top, then Activated on the window, then initialises its focus |
| WindowStack.RotateKeepsValid | ConsoleFramework/Controls/WindowsHost.cs:111-114 | moving a window to the top keeps the host invariant and the order of the other children |
| WindowStack.ActivateKeepsConsistent | ConsoleFramework/Controls/WindowsHost.cs:105-123 | activateWindow fails exactly for a window that is not shown, and otherwise puts it on top, keeps the menu, the flags and the others' order, and keeps the log's active window equal to the top |
| WindowStack.Shown | ConsoleFramework/Controls/WindowsHost.cs:254-265 | no contract of its own: ShowKeepsConsistent and ShowDeactivatesTop state its result and its events |
| WindowStack.ShowKeepsConsistent | ConsoleFramework/Controls/WindowsHost.cs:254-265 | showCore fails exactly for a window already shown, and otherwise appends it as the active top window with the flags given, modal exactly when shown modal |
| WindowStack.ShowDeactivatesTop | ConsoleFramework/Controls/WindowsHost.cs:255-263 | showCore raises Deactivated on the old top only when a window was shown, then Activated on the new one, then initialises its focus |
| WindowStack.RemoveWindowValid | ConsoleFramework/Controls/WindowsHost.cs:271-273 | dropping a window from windowInfos and Children keeps the host invariant |
| WindowStack.Reactivated | ConsoleFramework/Controls/WindowsHost.cs:284-289 | no contract of its own: ReactivatedActive states that it activates the new top window |
| WindowStack.ReactivatedActive | ConsoleFramework/Controls/WindowsHost.cs:284-289 | after a close, the active window is the new top window |
| WindowStack.Close | ConsoleFramework/Controls/WindowsHost.cs:270-290 | no contract of its own: CloseKeepsValid, CloseKeepsConsistent and CloseBelowTop state its result and its events |
| WindowStack.CloseKeepsValid | ConsoleFramework/Controls/WindowsHost.cs:270-290 | closing a shown window keeps the invariant and the menu, and drops exactly that window from windowInfos and Children |
| WindowStack.CloseKeepsConsistent | ConsoleFramework/Controls/WindowsHost.cs:270-290 | CloseWindow fails exactly for a window that is not shown, and otherwise removes it and leaves the new top window active |
| WindowStack.CloseBelowTop | ConsoleFramework/Controls/WindowsHost.cs:270-290 | closing a window below the top raises Deactivated and Closed on it, then Activated on the unchanged top window |
| WindowStack.ShowThenClose | ConsoleFramework/Controls/WindowsHost.cs:231-290 | showing a window and then closing it restores Children, windowInfos and the top window |
| WindowStack.WindowsPart | ConsoleFramework/Controls/WindowsHost.cs:69-76 | the children after the menu are windows, distinct, and all the windows of the host |
| WindowStack.WithMainMenu | ConsoleFramework/Controls/WindowsHost.cs:19-33 | no contract of its own: WithMainMenuKeepsConsistent states its result |
| WindowStack.WithMainMenuKeepsConsistent | ConsoleFramework/Controls/WindowsHost.cs:19-33 | the MainMenu setter puts the new menu at index 0, keeps the windows, their order, the flags, the log and the top window, and changes nothing when the value is the same |
| WindowStack.MenuActivated | ConsoleFramework/Controls/WindowsHost.cs:178-182 | activateMenu fails exactly without a main menu, and otherwise sets the menu as focus scope only when it is not the current scope |
| WindowStack.PreviewMouseDown | ConsoleFramework/Controls/WindowsHost.cs:143-176 | no contract of its own: ModalSwallowsClick, ModalClosesOnOutsideClick, ClickInsideModal and ClickKeepsConsistent state its outcome |
| WindowStack.ModalSwallowsClick | ConsoleFramework/Controls/WindowsHost.cs:145-160 | a click outside a modal top window that does not close on outside clicks is marked handled and changes nothing |
| WindowStack.ModalClosesOnOutsideClick | ConsoleFramework/Controls/WindowsHost.cs:148-154 | a click outside a modal top window that closes on outside clicks closes it and passes the click on |
| WindowStack.ClickInsideModal | ConsoleFramework/Controls/WindowsHost.cs:145-148 | a click inside the modal top window changes nothing and is not handled |
| WindowStack.ClickActivates | ConsoleFramework/Controls/WindowsHost.cs:162-168 | without a modal top window, a click inside a window activates that window |
| WindowStack.ActivateClicked | ConsoleFramework/Controls/WindowsHost.cs:162-176 | no contract of its own: ClickActivates and ActivateClickedKeepsMembers state its outcome |
| WindowStack.ActivateClickedKeepsMembers | ConsoleFramework/Controls/WindowsHost.cs:165-175 | activating what was clicked keeps windowInfos and the set of children |
| WindowStack.ClickKeepsConsistent | ConsoleFramework/Controls/WindowsHost.cs:143-176 | a mouse-down keeps the host consistent, and a click marked handled changes nothing |
| WindowStack.TruncHalf | ConsoleFramework/Controls/WindowsHost.cs:83 | C# `n / 2`: rounds toward zero for negative n as well |
| WindowStack.Placement | ConsoleFramework/Controls/WindowsHost.cs:79-91 | no contract of its own: PlacementCentred states the rectangle it gives |
| WindowStack.PlacementCentred | ConsoleFramework/Controls/WindowsHost.cs:79-91 | a window gets its desired size and its X or Y when set; otherwise it is centred, with any odd cell on the right or bottom, also when it does not fit |
| WindowStack.FindWindowsHostParent | ConsoleFramework/Controls/WindowsHost.cs:296-302 | the parent walk returns the first host on the chain, and -1 (null) exactly when there is none |
| WindowStack.WindowsHost.constructor | ConsoleFramework/Controls/WindowsHost.cs:35-41 | a new host has no menu, no children, no window flags and an empty log |
| WindowStack.WindowsHost.SetMainMenu | ConsoleFramework/Controls/WindowsHost.cs:19-33 | the setter updates the fields as WithMainMenu says and keeps the invariant |
| WindowStack.WindowsHost.MoveToTop | ConsoleFramework/Controls/WindowsHost.cs:111-114 | the shifting loop rotates the window to the last slot and changes no other field |
| WindowStack.WindowsHost.ActivateWindow | ConsoleFramework/Controls/WindowsHost.cs:105-123 | succeeds exactly for a shown window and then reaches Activate; otherwise nothing changes |
| WindowStack.WindowsHost.ShowCore | ConsoleFramework/Controls/WindowsHost.cs:254-265 | succeeds exactly for a window not yet shown and then reaches Shown; otherwise nothing changes |
| WindowStack.WindowsHost.Show | ConsoleFramework/Controls/WindowsHost.cs:238-240 | shows the window non-modal on top |
| WindowStack.WindowsHost.ShowModal | ConsoleFramework/Controls/WindowsHost.cs:231-233 | shows the window modal on top, with the given outside-click flag |
| WindowStack.WindowsHost.Unlist | ConsoleFramework/Controls/WindowsHost.cs:271-274 | drops the window from windowInfos and Children and logs Deactivated then Closed |
| WindowStack.WindowsHost.CloseWindow | ConsoleFramework/Controls/WindowsHost.cs:270-290 | succeeds exactly for a shown window and then reaches Close; otherwise nothing changes |
| WindowStack.WindowsHost.ActivateMenu | ConsoleFramework/Controls/WindowsHost.cs:178-182 | succeeds exactly when there is a main menu and then reaches MenuActivated |
| WindowStack.WindowsHost.OnPreviewMouseDown | ConsoleFramework/Controls/WindowsHost.cs:143-176 | the handler reaches the state PreviewMouseDown gives, and reports whether it marked the click handled |
| WindowStack.WindowsHost.ArrangeOverride | ConsoleFramework/Controls/WindowsHost.cs:68-94 | the menu gets the top row, and each window, in child order, gets its Placement |

## Left out

- Subscriptions: `subscribeToListChanged` and `unsubscribeFromListChanged` (TreeView.cs:108-120, 140, 155) only register the handler on nested item lists. The handler always reads the root list whichever list raised the event, so notifications from nested lists are not modelled.
- TreeChanges.InsertRun: a turn that throws ends in `Failed`, which carries no state. The effects of the earlier turns, which the C# code has already applied, are not part of the result.
- TreeChanges.RemoveRun: likewise, a turn that throws drops the effects of the turns before it.
- TreeChanges.RemoveRunKeepsValid: covers only runs of collapsed roots. A removal notification that carries an expanded root has a lemma for one turn only (RemoveRootKeepsValid). For a root with an expanded child showing grandchildren, the source breaks the invariant; see Findings.
- TreeChanges.RemoveRootKeepsValid: requires an expanded root's children to follow it directly. This leaves out two cases. (1) A root flagged Expanded whose children were never shown: the source's collapse then cuts the entries after the root, so removing root 0 of roots [0, 1] with 0→[2] and treeItemsFlat [0, 1] leaves [] (TreeFindings.RemoveDropsSibling, first finding). (2) A root whose children are separated by the grandchildren an expanded child shows: the source leaves those grandchildren listed (TreeFindings.RemoveLeavesOrphans, first finding).
- TreeChanges: the list-change handlers are functions on the `TreeState` value, not methods of the `TreeView` class. Their loops (TreeView.cs:125-141, 145-156) are folds over the turns, and the in-place update is not modelled for them.
- TreeProjection.Expand, TreeProjection.Collapse and ExpandCollapse.SetFlag: use the item's cached `Position` where the source calls `treeItemsFlat.IndexOf` (TreeView.cs:168, 185, 198). IndexOfPosition proves the two agree for every visible item of a valid projection. They differ for an item that is not listed: `IndexOf` returns -1, and the source's `collapse` then cuts from index 0, while TreeFindings.FoldAsWritten reads the flagged child's Position instead.
- TreeProjection.SelectedItem: returns None where the list indexer would throw `ArgumentOutOfRangeException`.
- TreeItems.DisplayTitle: `UnicodeTable` is not part of this model. Two distinct non-space characters stand in for `ArrowDown` and `ArrowRight`.
- ExpandCollapse.Toggle: requires `CanToggle`. On an expanded item this asks that what the item shows follows it, so it excludes an item flagged Expanded whose children were never shown (the first input of the second finding). TreeFindings.FoldAsWritten models the collapsing branch on that state. An expanded grandchild is not excluded: Toggle then cuts what the source cuts (TreeFindings.FoldOrphansGrandchild).
- ExpandCollapse.ToggleTwiceRestores: Positions of children that were never shown hold C#'s default 0. After two toggles they hold -1, so every Position comes back only when the shown items held -1 before (ToggleTwiceKeepsPositions).
- Disabled indexes: `DisabledItemsIndexes` is modelled as the list the code builds. No round trip is claimed for it, since expand adds `i + index + 1` and collapse removes `index + 1`.
- The TreeView mouse handler and the SelectedItem change notification (TreeView.cs:97-105), and TreeView's Measure and Arrange delegation to the list box (TreeView.cs:222-230): UI glue.
- WindowsHost.MeasureOverride (WindowsHost.cs:49-66): measures the main menu with the available width and height 1 and every window with `int.MaxValue` both ways, through `Control.Measure`, which is not part of this model. Render (WindowsHost.cs:96-99), `Invalidate` and the forwarding of mouse moves to mouse-down (WindowsHost.cs:43-47) are left out too.
- WindowStack: what the visual tree and the focus manager answer (`FindClosestParent`, `IsConnectedToRoot`, the stored focus, the current focus scope, each window's X, Y and desired size) is passed in as a parameter. Their calls are recorded in the event log, not performed.
- WindowStack.Shown: returns None for a window that is already shown, with no partial effects. In the source, showCore (WindowsHost.cs:254-265) has by then raised Deactivated on the old top and Activated on the window, added the child and initialised its focus; only then does `Dictionary.Add` throw.
- WindowStack.WindowsHost.ShowCore: showing a window that is already shown fails with no state change. In the source, `Dictionary.Add` throws only after the events were raised and the child was added (`Control.AddChild` is not part of this model).
- WindowStack.Close: returns None for a window that is not shown, with no partial effects. In the source, CloseWindow (WindowsHost.cs:270-290) goes on to raise Deactivated and Closed on it, call `Control.RemoveChild` and reactivate the top window.
- WindowStack.Reactivated: `GetChildrenOrderedByZIndex()` (WindowsHost.cs:276) is not part of this model. It is taken to be `Children` in insertion order, so the window reactivated after a close is the last child; ZIndex is not modelled.
- WindowStack.WindowsHost.CloseWindow: on a window that is not shown it fails with no change. `Control.RemoveChild`, which the source would reach, is not part of this model.
- WindowStack.PlacementCentred: integers are unbounded. The `int` arithmetic of `ArrangeOverride` is not checked for overflow.

## Findings

| source | as written | input that shows it | evidently intended | confidence | as-written member | corrected member |
|---|---|---|---|---|---|---|
| ConsoleFramework/Controls/TreeView.cs:145-152 with 184-195 | removing an expanded root calls `collapse`, which cuts only as many entries as the root has children. An expanded child's own children stay listed, and the Positions after them are wrong. A root flagged Expanded whose children are not shown makes it cut the entries that follow the root instead | (1) roots [0]; 0→[1], 1→[2], 2→[3], with 0, 1 and 2 expanded and treeItemsFlat [0,1,2,3]; removing root 0 leaves [2,3], with 2 and 3 under no listed parent. (2) roots [0,1], 0→[2], with 0 flagged Expanded but never expanded and treeItemsFlat [0,1]: removing root 0 leaves [] and drops root 1 | removal takes out the root and everything shown beneath it, and keeps the invariant | not executed | TreeFindings.RemoveLeavesOrphans, TreeFindings.RemoveDropsSibling | TreeFindings.RemoveRootShown, TreeFindings.RemoveRootShownCutsDeeper, TreeFindings.RemoveShownOnChain, TreeFindings.RemoveShownKeepsSibling |
| ConsoleFramework/Controls/TreeView.cs:199-208 | the collapsing branch of `expandCollapse` collapses the flagged direct children, then the item, each by its child count. An item flagged Expanded whose children were never shown, the item itself or one of its flagged children, makes it cut other items' entries, and an expanded grandchild's children stay listed | (1) roots [0,1], 0→[2], with 0 flagged Expanded but never expanded and treeItemsFlat [0,1]: the branch leaves [0] and drops root 1. (2) the chain above: the branch leaves [0,3] | collapsing hides exactly the entries shown beneath the item, judged by Level, and nothing else | not executed | TreeFindings.FoldAsWritten, TreeFindings.FoldDropsSibling, TreeFindings.FoldOrphansGrandchild, TreeFindings.FoldAsWrittenOnChain | TreeFindings.CollapseShownKeepsValid, TreeFindings.CollapseShownCutsDeeper, TreeFindings.FoldShown, TreeFindings.FoldShownOnChain, TreeFindings.FoldShownKeepsSibling |
