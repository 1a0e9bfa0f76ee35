/** The flat projection kept by TreeView (ConsoleFramework/Controls/TreeView.cs):
    treeItemsFlat, the list box lines and disabled indexes beside it, and the
    Position/Level/Expanded fields of every TreeItem. Each private operation of
    TreeView is given here as a function from the state before to the state
    after. The TreeView class in TreeViews runs expand, collapse and
    expandCollapse with the source's loops and is proved to reach the state
    these functions give; the list-change handlers stay functions
    (TreeChanges). */
module TreeProjection {
  import opened Seqs
  import opened TreeItems

  /** Everything the projection reads or writes.
      data     - per-item Title, Disabled and Items (never written here)
      roots    - TreeView.items, the root list
      flat     - treeItemsFlat
      lines    - listBox.Items
      disabledIndexes - listBox.DisabledItemsIndexes (a list: Add appends,
                 Remove drops the first occurrence, nothing shifts it)
      position, level, expanded - TreeItem.Position, .Level, .Expanded */
  datatype TreeState = TreeState(
    data: map<ItemId, ItemData>,
    roots: seq<ItemId>,
    flat: seq<ItemId>,
    lines: seq<string>,
    disabledIndexes: seq<int>,
    position: map<ItemId, int>,
    level: map<ItemId, nat>,
    expanded: map<ItemId, bool>)

  /** The projection invariant: every visible item caches its own index in
      Position, and the list box has one line per visible item. The rest says
      that every item mentioned anywhere has its fields. */
  ghost predicate Valid(s: TreeState) {
    && s.position.Keys == s.data.Keys
    && s.level.Keys == s.data.Keys
    && s.expanded.Keys == s.data.Keys
    && ChildrenIn(s.data)
    && AllIn(s.roots, s.data)
    && (forall id | id in s.flat :: id in s.data)
    && (forall k | 0 <= k < |s.flat| :: s.position[s.flat[k]] == k)
    && |s.lines| == |s.flat|
  }

  /** An item whose Position is cached correctly appears once. */
  lemma ValidNoDup(s: TreeState)
    requires Valid(s)
    ensures NoDup(s.flat)
  {
    NoDupIndexes(s.flat);
  }

  /** Every visible entry caches its own index. */
  lemma ValidIndexed(s: TreeState)
    requires Valid(s)
    ensures Indexed(s.flat, s.position)
  {
  }

  /** A projection that keeps the items, roots, levels and flags of a valid
      one, lists only items that one listed, keeps its Position keys and
      caches every listed index is valid. */
  lemma IndexedKeepsValid(s: TreeState, r: TreeState)
    requires Valid(s)
    requires r.data == s.data && r.roots == s.roots && r.level == s.level && r.expanded == s.expanded
    requires r.position.Keys == s.position.Keys && forall x | x in r.flat :: x in s.flat
    requires Indexed(r.flat, r.position) && |r.lines| == |r.flat|
    ensures Valid(r)
  {
  }

  /** A visible item is the entry at the index its Position caches. */
  lemma VisibleAt(s: TreeState, item: ItemId)
    requires Valid(s) && item in s.flat
    ensures 0 <= s.position[item] < |s.flat| && s.flat[s.position[item]] == item
  {
    var j :| 0 <= j < |s.flat| && s.flat[j] == item;
  }

  /** List.IndexOf finds a visible item at the index its Position caches, so
      reading Position where the source calls IndexOf changes nothing. */
  lemma IndexOfPosition(s: TreeState, item: ItemId)
    requires Valid(s) && item in s.flat
    ensures IndexOf(s.flat, item) == s.position[item]
  {
    VisibleAt(s, item);
  }

  /** The line the item shows now (GetDisplayTitle on its current fields). */
  function Title(s: TreeState, id: ItemId): string
    requires id in s.data && id in s.level && id in s.expanded
  {
    DisplayTitle(s.data[id], s.level[id], s.expanded[id])
  }

  /** Every line of the list box is what the entry at the same index shows
      now: its GetDisplayTitle. */
  ghost predicate Shown(s: TreeState) {
    && |s.lines| == |s.flat|
    && forall k | 0 <= k < |s.flat| ::
         && s.flat[k] in s.data && s.flat[k] in s.level && s.flat[k] in s.expanded
         && s.lines[k] == Title(s, s.flat[k])
  }

  /** TreeView.SelectedItem: treeItemsFlat[listBox.SelectedItemIndex], or
      None where the indexer would throw. */
  function SelectedItem(s: TreeState, selectedIndex: int): (r: Option<ItemId>)
    requires Valid(s)
    ensures r.Some? <==> 0 <= selectedIndex < |s.flat|
    ensures r.Some? ==> r.value in s.data && s.position[r.value] == selectedIndex
  {
    if 0 <= selectedIndex < |s.flat| then Some(s.flat[selectedIndex]) else None
  }

  // ---------------------------------------------------------------------
  // expand (TreeView.cs:167-182)

  /** Lines of `cs` once their Level is `lvl`. */
  function ChildTitles(data: map<ItemId, ItemData>, expanded: map<ItemId, bool>, cs: seq<ItemId>, lvl: nat): (r: seq<string>)
    requires forall c | c in cs :: c in data && c in expanded
    ensures |r| == |cs|
    ensures forall j | 0 <= j < |cs| :: r[j] == DisplayTitle(data[cs[j]], lvl, expanded[cs[j]])
  {
    if cs == [] then []
    else ChildTitles(data, expanded, cs[..|cs| - 1], lvl) + [DisplayTitle(data[cs[|cs| - 1]], lvl, expanded[cs[|cs| - 1]])]
  }

  /** How many of `cs` are disabled. */
  function DisabledCount(data: map<ItemId, ItemData>, cs: seq<ItemId>): nat
    requires forall c | c in cs :: c in data
  {
    if cs == [] then 0
    else DisabledCount(data, cs[..|cs| - 1]) + (if data[cs[|cs| - 1]].disabled then 1 else 0)
  }

  /** The disabled indexes expand adds: base + j for each disabled cs[j], in
      order (DisabledSlotsExact). */
  function DisabledSlots(data: map<ItemId, ItemData>, cs: seq<ItemId>, base: int): (r: seq<int>)
    requires forall c | c in cs :: c in data
    ensures forall v | v in r :: base <= v < base + |cs|
  {
    if cs == [] then []
    else
      DisabledSlots(data, cs[..|cs| - 1], base)
        + (if data[cs[|cs| - 1]].disabled then [base + |cs| - 1] else [])
  }

  /** expand adds one disabled index per disabled child, base + j exactly
      for the disabled cs[j], in increasing order. */
  lemma {:induction false} DisabledSlotsExact(data: map<ItemId, ItemData>, cs: seq<ItemId>, base: int)
    requires forall c | c in cs :: c in data
    ensures |DisabledSlots(data, cs, base)| == DisabledCount(data, cs)
    ensures forall j | 0 <= j < |cs| :: base + j in DisabledSlots(data, cs, base) <==> data[cs[j]].disabled
    ensures forall i, k | 0 <= i < k < |DisabledSlots(data, cs, base)| ::
      DisabledSlots(data, cs, base)[i] < DisabledSlots(data, cs, base)[k]
    decreases |cs|
  {
    if cs != [] {
      var init := cs[..|cs| - 1];
      DisabledSlotsExact(data, init, base);
      var p := DisabledSlots(data, init, base);
      assert forall i | 0 <= i < |p| :: p[i] in p;
      assert forall j | 0 <= j < |init| :: cs[j] == init[j];
    }
  }

  /** What expand reads exists: the item's fields, its index, and the
      fields of its children. */
  ghost predicate ExpandDefined(s: TreeState, item: ItemId) {
    && item in s.data && item in s.position && item in s.level
    && 0 <= s.position[item] < |s.flat|
    && |s.lines| == |s.flat|
    && (forall c | c in s.data[item].children :: c in s.data && c in s.expanded && c in s.position)
  }

  /** expand may run: the item is visible and its children are distinct and hidden. */
  ghost predicate CanExpand(s: TreeState, item: ItemId) {
    && Valid(s)
    && item in s.data
    && 0 <= s.position[item] < |s.flat|
    && s.flat[s.position[item]] == item
    && NoDup(s.data[item].children)
    && (forall c | c in s.data[item].children :: c !in s.flat)
  }

  /** The Level map after expand: the children one level below the item,
      every other item where it was. */
  function Deepen(level: map<ItemId, nat>, cs: seq<ItemId>, lvl: nat): (r: map<ItemId, nat>)
    ensures r.Keys == level.Keys
    ensures forall c | c in cs && c in level :: r[c] == lvl
  {
    map id | id in level :: if id in cs then lvl else level[id]
  }

  /** expand: the children go right after the item, in order, one level
      deeper, each caching its new index; every later entry moves down by the
      child count; the list box gets the children's lines at the same places. */
  ghost function Expand(s: TreeState, item: ItemId): (r: TreeState)
    requires ExpandDefined(s, item)
  {
    var idx := s.position[item];
    var cs := s.data[item].children;
    var lvl := s.level[item] + 1;
    var f := Splice(s.flat, idx + 1, cs);
    s.(flat := f,
       lines := Splice(s.lines, idx + 1, ChildTitles(s.data, s.expanded, cs, lvl)),
       disabledIndexes := s.disabledIndexes + DisabledSlots(s.data, cs, idx + 1),
       position := Shift(Place(s.position, cs, idx + 1), s.flat[idx + 1..], |cs|),
       level := Deepen(s.level, cs, lvl))
  }

  /** What expand leaves in the projection and in Position, spelled out. */
  lemma ExpandParts(s: TreeState, item: ItemId)
    requires ExpandDefined(s, item)
    ensures Expand(s, item).flat == Splice(s.flat, s.position[item] + 1, s.data[item].children)
    ensures Expand(s, item).position
      == Shift(Place(s.position, s.data[item].children, s.position[item] + 1),
               s.flat[s.position[item] + 1..], |s.data[item].children|)
  {
  }

  /** expand changes Position only of the items it shows or moves, and
      Level only of the children. */
  lemma ExpandFrames(s: TreeState, item: ItemId)
    requires ExpandDefined(s, item)
    ensures Expand(s, item).position.Keys == s.position.Keys
    ensures forall id | id in s.position && id !in Expand(s, item).flat ::
      Expand(s, item).position[id] == s.position[id]
    ensures forall id | id in s.level && id !in s.data[item].children ::
      Expand(s, item).level[id] == s.level[id]
  {
    ExpandParts(s, item);
    SpliceFrames(s.flat, s.position, s.data[item].children, s.position[item] + 1,
                 Expand(s, item).flat, Expand(s, item).position);
  }

  /** expand keeps every line showing the entry at its index: the children
      get their titles at their new Level, and nothing else that is shown
      changes Level. */
  lemma ExpandKeepsShown(s: TreeState, item: ItemId)
    requires CanExpand(s, item) && Shown(s)
    ensures Shown(Expand(s, item))
  {
    var r := Expand(s, item);
    var idx, cs := s.position[item], s.data[item].children;
    var lvl := s.level[item] + 1;
    ExpandLines(s, item, r, idx, cs, lvl);
    SplicedAllShown(s, r, idx + 1, cs, lvl);
  }

  /** Every line still shows its entry after children are spliced in at `at`
      with their titles at `lvl`. */
  lemma SplicedAllShown(s: TreeState, r: TreeState, at: int, cs: seq<ItemId>, lvl: nat)
    requires Shown(s) && 0 <= at <= |s.flat|
    requires forall c | c in cs :: c in s.data && c in s.expanded && c in s.level && c !in s.flat
    requires r.data == s.data && r.expanded == s.expanded && r.level == Deepen(s.level, cs, lvl)
    requires r.flat == Splice(s.flat, at, cs)
    requires r.lines == Splice(s.lines, at, ChildTitles(s.data, s.expanded, cs, lvl))
    ensures Shown(r)
  {
    forall k | 0 <= k < |r.flat|
      ensures r.flat[k] in r.data && r.flat[k] in r.level && r.flat[k] in r.expanded
      ensures r.lines[k] == Title(r, r.flat[k])
    {
      SplicedShown(s, r, at, cs, lvl, k);
    }
  }

  /** What expand does to the entries, the lines and the Levels, with the
      children it inserts known, shown nowhere yet. */
  lemma ExpandLines(s: TreeState, item: ItemId, r: TreeState, idx: int, cs: seq<ItemId>, lvl: nat)
    requires CanExpand(s, item) && r == Expand(s, item)
    requires idx == s.position[item] && cs == s.data[item].children && lvl == s.level[item] + 1
    ensures 0 <= idx + 1 <= |s.flat|
    ensures forall c | c in cs :: c in s.data && c in s.expanded && c in s.level && c !in s.flat
    ensures r.data == s.data && r.expanded == s.expanded && r.level == Deepen(s.level, cs, lvl)
    ensures r.flat == Splice(s.flat, idx + 1, cs)
    ensures r.lines == Splice(s.lines, idx + 1, ChildTitles(s.data, s.expanded, cs, lvl))
  {
  }

  /** An entry after children are spliced in at `at`: an old entry keeps its
      line and Level, a new one shows its title at `lvl`. */
  lemma SplicedShown(s: TreeState, r: TreeState, at: int, cs: seq<ItemId>, lvl: nat, k: int)
    requires Shown(s) && 0 <= at <= |s.flat|
    requires forall c | c in cs :: c in s.data && c in s.expanded && c in s.level && c !in s.flat
    requires r.data == s.data && r.expanded == s.expanded && r.level == Deepen(s.level, cs, lvl)
    requires r.flat == Splice(s.flat, at, cs)
    requires r.lines == Splice(s.lines, at, ChildTitles(s.data, s.expanded, cs, lvl))
    requires 0 <= k < |r.flat|
    ensures r.flat[k] in r.data && r.flat[k] in r.level && r.flat[k] in r.expanded
    ensures r.lines[k] == Title(r, r.flat[k])
  {
    SpliceIndex(s.flat, at, cs, k);
    SpliceIndex(s.lines, at, ChildTitles(s.data, s.expanded, cs, lvl), k);
    if k < at {
      assert s.flat[k] in s.flat;
    } else if k < at + |cs| {
      assert cs[k - at] in cs;
    } else {
      assert s.flat[k - |cs|] in s.flat;
    }
  }

  /** expand keeps the projection invariant. */
  lemma ExpandKeepsValid(s: TreeState, item: ItemId)
    requires CanExpand(s, item)
    ensures Valid(Expand(s, item))
  {
    ExpandKeepsIndexed(s, item);
    ExpandKeepsFields(s, item);
  }

  /** After expand every visible entry caches its own index. */
  lemma ExpandKeepsIndexed(s: TreeState, item: ItemId)
    requires CanExpand(s, item)
    ensures Indexed(Expand(s, item).flat, Expand(s, item).position)
  {
    ValidIndexed(s);
    ExpandParts(s, item);
    SpliceIndexed(s.flat, s.position, s.data[item].children, s.position[item] + 1,
                  Expand(s, item).flat, Expand(s, item).position);
  }

  /** After expand every item still has its fields, every visible entry is
      an item, and the list box has one line per entry. */
  lemma ExpandKeepsFields(s: TreeState, item: ItemId)
    requires ExpandDefined(s, item)
    requires s.position.Keys == s.data.Keys && s.level.Keys == s.data.Keys
    requires forall id | id in s.flat :: id in s.data
    ensures Expand(s, item).position.Keys == s.data.Keys
    ensures Expand(s, item).level.Keys == s.data.Keys
    ensures forall id | id in Expand(s, item).flat :: id in s.data
    ensures |Expand(s, item).lines| == |Expand(s, item).flat|
  {
    ExpandFrames(s, item);
    ExpandParts(s, item);
    forall id | id in Expand(s, item).flat ensures id in s.data {
      InSplice(s.flat, s.position[item] + 1, s.data[item].children, id);
    }
  }

  /** expand, entry by entry: the entries up to the item stay where they
      were; the children follow the item in order, one level deeper, each
      caching its new index and showing its title; every later entry moves
      down by the child count and caches its new index. */
  lemma ExpandEntries(s: TreeState, item: ItemId, r: TreeState, idx: int, cs: seq<ItemId>)
    requires CanExpand(s, item) && r == Expand(s, item)
    requires idx == s.position[item] && cs == s.data[item].children
    ensures |r.flat| == |s.flat| + |cs| && |r.lines| == |r.flat|
    ensures forall k | 0 <= k <= idx ::
      r.flat[k] == s.flat[k] && r.position[s.flat[k]] == k && r.lines[k] == s.lines[k]
    ensures forall j | 0 <= j < |cs| ::
      && r.flat[idx + 1 + j] == cs[j] && r.position[cs[j]] == idx + 1 + j
      && r.level[cs[j]] == s.level[item] + 1
      && r.lines[idx + 1 + j] == DisplayTitle(s.data[cs[j]], s.level[item] + 1, s.expanded[cs[j]])
    ensures forall k | idx < k < |s.flat| ::
      r.flat[k + |cs|] == s.flat[k] && r.position[s.flat[k]] == k + |cs| && r.lines[k + |cs|] == s.lines[k]
  {
    var lvl := s.level[item] + 1;
    ExpandKeepsIndexed(s, item);
    ExpandLines(s, item, r, idx, cs, lvl);
    SplicedEntries(s, item, r, idx, cs, lvl);
  }

  /** ExpandEntries, for any state whose lists are the splices expand makes. */
  lemma SplicedEntries(s: TreeState, item: ItemId, r: TreeState, idx: int, cs: seq<ItemId>, lvl: nat)
    requires 0 <= idx < |s.flat| && |s.lines| == |s.flat| && item in s.level && lvl == s.level[item] + 1
    requires forall c | c in cs :: c in s.data && c in s.expanded && c in s.level
    requires r.flat == Splice(s.flat, idx + 1, cs)
    requires r.lines == Splice(s.lines, idx + 1, ChildTitles(s.data, s.expanded, cs, lvl))
    requires r.level == Deepen(s.level, cs, lvl) && Indexed(r.flat, r.position)
    ensures |r.flat| == |s.flat| + |cs| && |r.lines| == |r.flat|
    ensures forall k | 0 <= k <= idx ::
      r.flat[k] == s.flat[k] && r.position[s.flat[k]] == k && r.lines[k] == s.lines[k]
    ensures forall j | 0 <= j < |cs| ::
      && r.flat[idx + 1 + j] == cs[j] && r.position[cs[j]] == idx + 1 + j
      && r.level[cs[j]] == s.level[item] + 1
      && r.lines[idx + 1 + j] == DisplayTitle(s.data[cs[j]], s.level[item] + 1, s.expanded[cs[j]])
    ensures forall k | idx < k < |s.flat| ::
      r.flat[k + |cs|] == s.flat[k] && r.position[s.flat[k]] == k + |cs| && r.lines[k + |cs|] == s.lines[k]
  {
    var titles := ChildTitles(s.data, s.expanded, cs, lvl);
    SpliceEntries(s.flat, s.lines, cs, titles, idx + 1, r.flat, r.lines, r.position);
    forall j | 0 <= j < |cs|
      ensures r.flat[idx + 1 + j] == cs[j] && r.position[cs[j]] == idx + 1 + j
      ensures r.level[cs[j]] == lvl && r.lines[idx + 1 + j] == DisplayTitle(s.data[cs[j]], lvl, s.expanded[cs[j]])
    {
      assert cs[j] in cs;
      assert r.lines[idx + 1 + j] == titles[j];
    }
  }

  /** Splicing `cs` and its lines in at `at`, entry by entry, with the
      result caching its indexes in `pos`. */
  lemma SpliceEntries<L>(f: seq<ItemId>, lines: seq<L>, cs: seq<ItemId>, titles: seq<L>, at: int,
                         u: seq<ItemId>, ul: seq<L>, pos: map<ItemId, int>)
    requires 0 <= at <= |f| && |lines| == |f| && |titles| == |cs|
    requires u == Splice(f, at, cs) && ul == Splice(lines, at, titles) && Indexed(u, pos)
    ensures |ul| == |u|
    ensures forall k | 0 <= k < at :: u[k] == f[k] && pos[f[k]] == k && ul[k] == lines[k]
    ensures forall j | 0 <= j < |cs| :: u[at + j] == cs[j] && pos[cs[j]] == at + j && ul[at + j] == titles[j]
    ensures forall k | at <= k < |f| :: u[k + |cs|] == f[k] && pos[f[k]] == k + |cs| && ul[k + |cs|] == lines[k]
  {
    forall k | 0 <= k < at ensures u[k] == f[k] && pos[f[k]] == k && ul[k] == lines[k] {
      SpliceIndex(f, at, cs, k);
      SpliceIndex(lines, at, titles, k);
    }
    forall j | 0 <= j < |cs| ensures u[at + j] == cs[j] && pos[cs[j]] == at + j && ul[at + j] == titles[j] {
      SpliceIndex(f, at, cs, at + j);
      SpliceIndex(lines, at, titles, at + j);
    }
    forall k | at <= k < |f| ensures u[k + |cs|] == f[k] && pos[f[k]] == k + |cs| && ul[k + |cs|] == lines[k] {
      SpliceIndex(f, at, cs, k + |cs|);
      SpliceIndex(lines, at, titles, k + |cs|);
    }
  }

  // ---------------------------------------------------------------------
  // collapse (TreeView.cs:184-195)

  /** The disabled indexes after collapse: one List.Remove(v) per disabled child. */
  function RemoveSlots(d: seq<int>, data: map<ItemId, ItemData>, cs: seq<ItemId>, v: int): (r: seq<int>)
    requires forall c | c in cs :: c in data
    ensures |r| <= |d|
  {
    if cs == [] then d
    else
      var d1 := RemoveSlots(d, data, cs[..|cs| - 1], v);
      if data[cs[|cs| - 1]].disabled then RemoveFirst(d1, v) else d1
  }
  /** collapse drops one occurrence of `v` per disabled child, as long as
      there is one left, and no other index. */
  lemma {:induction false} RemoveSlotsCounts(d: seq<int>, data: map<ItemId, ItemData>, cs: seq<ItemId>, v: int)
    requires forall c | c in cs :: c in data
    ensures forall u | u != v :: multiset(RemoveSlots(d, data, cs, v))[u] == multiset(d)[u]
    ensures multiset(RemoveSlots(d, data, cs, v))[v]
      == if multiset(d)[v] >= DisabledCount(data, cs) then multiset(d)[v] - DisabledCount(data, cs) else 0
    decreases |cs|
  {
    if cs != [] {
      RemoveSlotsCounts(d, data, cs[..|cs| - 1], v);
    }
  }


  /** What collapse reads exists: the item's fields, and as many entries
      after its index as it has children. */
  ghost predicate CollapseDefined(s: TreeState, item: ItemId) {
    && item in s.data && item in s.position
    && 0 <= s.position[item]
    && s.position[item] + 1 + |s.data[item].children| <= |s.flat|
    && |s.lines| == |s.flat|
    && (forall c | c in s.data[item].children :: c in s.data && c in s.position)
  }

  /** collapse may run: the item is visible and its children occupy the
      entries right after it. */
  ghost predicate CanCollapse(s: TreeState, item: ItemId) {
    && Valid(s)
    && item in s.data
    && 0 <= s.position[item] < |s.flat|
    && s.flat[s.position[item]] == item
    && s.position[item] + 1 + |s.data[item].children| <= |s.flat|
    && s.flat[s.position[item] + 1..s.position[item] + 1 + |s.data[item].children|] == s.data[item].children
  }

  /** collapse: the entries after the item, as many as it has children, leave
      the projection and the list box; each child's Position becomes -1; every
      later entry moves up by the child count. */
  ghost function Collapse(s: TreeState, item: ItemId): (r: TreeState)
    requires CollapseDefined(s, item)
  {
    var idx := s.position[item];
    var cs := s.data[item].children;
    var n := |cs|;
    var f := Cut(s.flat, idx + 1, n);
    s.(flat := f,
       lines := Cut(s.lines, idx + 1, n),
       disabledIndexes := RemoveSlots(s.disabledIndexes, s.data, cs, idx + 1),
       position := Shift(Park(s.position, cs), s.flat[idx + 1 + n..], -n))
  }

  /** What collapse leaves in the projection and in Position, spelled out. */
  lemma CollapseParts(s: TreeState, item: ItemId)
    requires CollapseDefined(s, item)
    ensures Collapse(s, item).flat == Cut(s.flat, s.position[item] + 1, |s.data[item].children|)
    ensures Collapse(s, item).position
      == Shift(Park(s.position, s.data[item].children),
               s.flat[s.position[item] + 1 + |s.data[item].children|..],
               -|s.data[item].children|)
  {
  }

  /** collapse keeps the set of items with a Position. */
  lemma CollapseKeys(s: TreeState, item: ItemId)
    requires CollapseDefined(s, item)
    ensures Collapse(s, item).position.Keys == s.position.Keys
  {
    CollapseParts(s, item);
    PositionKeys(Park(s.position, s.data[item].children),
                 s.flat[s.position[item] + 1 + |s.data[item].children|..], -|s.data[item].children|);
  }

  /** CollapseParts, for a state whose item index, children and entries
      after the children are known. */
  lemma CollapsePositionOf(e: TreeState, item: ItemId, idx: int, cs: seq<ItemId>, tail: seq<ItemId>)
    requires CollapseDefined(e, item)
    requires e.position[item] == idx && e.data[item].children == cs && e.flat[idx + 1 + |cs|..] == tail
    ensures Collapse(e, item).position == Shift(Park(e.position, cs), tail, -|cs|)
  {
  }

  /** collapse gives the children Position -1 and changes the Position of
      no other item that was not shown. */
  lemma CollapseFrames(s: TreeState, item: ItemId)
    requires CollapseDefined(s, item)
    requires s.flat[s.position[item] + 1..s.position[item] + 1 + |s.data[item].children|] == s.data[item].children
    requires forall x | x in s.data[item].children :: x !in s.flat[s.position[item] + 1 + |s.data[item].children|..]
    ensures Collapse(s, item).position.Keys == s.position.Keys
    ensures forall x | x in s.data[item].children :: Collapse(s, item).position[x] == -1
    ensures forall id | id in s.position && id !in s.flat :: Collapse(s, item).position[id] == s.position[id]
  {
    forall id | id in s.data[item].children ensures id in s.flat {
      SliceIn(s.flat, s.position[item] + 1, s.position[item] + 1 + |s.data[item].children|, id);
    }
    CollapseParts(s, item);
    CutFrames(s.flat, s.position, s.data[item].children, s.position[item] + 1, |s.data[item].children|,
              Collapse(s, item).position);
  }

  /** collapse keeps the projection invariant and leaves every item that was
      not visible where it was. */
  lemma CollapseKeepsValid(s: TreeState, item: ItemId)
    requires CanCollapse(s, item)
    ensures Valid(Collapse(s, item))
    ensures forall id | id in s.position && id !in s.flat ::
      Collapse(s, item).position[id] == s.position[id]
  {
    ValidIndexed(s);
    CollapseParts(s, item);
    CutIndexed(s.flat, s.position, s.data[item].children, s.position[item] + 1, |s.data[item].children|,
               Collapse(s, item).flat, Collapse(s, item).position);
  }

  /** collapse, entry by entry: the entries up to the item stay where they
      were; each child leaves the projection with Position -1; every entry
      after the children moves up by the child count and caches its new
      index, with its line beside it. */
  lemma CollapseEntries(s: TreeState, item: ItemId, r: TreeState, idx: int, cs: seq<ItemId>)
    requires CanCollapse(s, item) && r == Collapse(s, item)
    requires idx == s.position[item] && cs == s.data[item].children
    ensures |r.flat| == |s.flat| - |cs| && |r.lines| == |r.flat|
    ensures forall k | 0 <= k <= idx ::
      r.flat[k] == s.flat[k] && r.position[s.flat[k]] == k && r.lines[k] == s.lines[k]
    ensures forall c | c in cs :: c !in r.flat && r.position[c] == -1
    ensures forall k | idx + 1 + |cs| <= k < |s.flat| ::
      r.flat[k - |cs|] == s.flat[k] && r.position[s.flat[k]] == k - |cs| && r.lines[k - |cs|] == s.lines[k]
  {
    ValidIndexed(s);
    CollapseIndexed(s, item, r);
    ChildrenAfter(s.flat, s.position, cs, idx + 1);
    CollapseFrames(s, item);
    CollapseCut(s, item, r, idx, cs);
    CutEntries(s.flat, s.position, s.lines, cs, idx + 1, r.flat, r.lines, r.position);
  }

  /** What collapse leaves in the two lists, with the item index and the
      children known. */
  lemma CollapseCut(s: TreeState, item: ItemId, r: TreeState, idx: int, cs: seq<ItemId>)
    requires CollapseDefined(s, item) && r == Collapse(s, item)
    requires idx == s.position[item] && cs == s.data[item].children
    ensures r.flat == Cut(s.flat, idx + 1, |cs|) && r.lines == Cut(s.lines, idx + 1, |cs|)
  {
  }

  /** After collapse every visible entry caches its own index. */
  lemma CollapseIndexed(s: TreeState, item: ItemId, r: TreeState)
    requires CanCollapse(s, item) && r == Collapse(s, item)
    ensures Indexed(r.flat, r.position)
  {
    CollapseKeepsValid(s, item);
    ValidIndexed(r);
  }

  /** Children listed at `at` in an indexed list appear nowhere after them. */
  lemma ChildrenAfter(f: seq<ItemId>, pos: map<ItemId, int>, cs: seq<ItemId>, at: int)
    requires Indexed(f, pos) && 0 <= at && at + |cs| <= |f| && f[at..at + |cs|] == cs
    ensures forall x | x in cs :: x !in f[at + |cs|..]
  {
    forall x | x in cs ensures x !in f[at + |cs|..] {
      var j :| 0 <= j < |cs| && cs[j] == x;
      assert f[at + j] == x;
      IndexedTail(f, pos, at + j, at + |cs|);
    }
  }

  /** Cutting the run `cs` listed at `at` and its lines, entry by entry,
      with the result caching its indexes in `pos`. */
  lemma CutEntries<L>(f: seq<ItemId>, fpos: map<ItemId, int>, lines: seq<L>, cs: seq<ItemId>, at: int,
                      u: seq<ItemId>, ul: seq<L>, pos: map<ItemId, int>)
    requires Indexed(f, fpos)
    requires 0 <= at && at + |cs| <= |f| && |lines| == |f| && f[at..at + |cs|] == cs
    requires u == Cut(f, at, |cs|) && ul == Cut(lines, at, |cs|) && Indexed(u, pos)
    requires forall x | x in cs :: x !in f[at + |cs|..]
    ensures |ul| == |u|
    ensures forall k | 0 <= k < at :: u[k] == f[k] && pos[f[k]] == k && ul[k] == lines[k]
    ensures forall c | c in cs :: c !in u
    ensures forall k | at + |cs| <= k < |f| :: u[k - |cs|] == f[k] && pos[f[k]] == k - |cs| && ul[k - |cs|] == lines[k]
  {
    var n := |cs|;
    forall k | 0 <= k < at ensures u[k] == f[k] && pos[f[k]] == k && ul[k] == lines[k] {
      CutIndex(f, at, n, k);
      CutIndex(lines, at, n, k);
    }
    forall k | at + n <= k < |f| ensures u[k - n] == f[k] && pos[f[k]] == k - n && ul[k - n] == lines[k] {
      CutIndex(f, at, n, k - n);
      CutIndex(lines, at, n, k - n);
    }
    forall c | c in cs ensures c !in u {
      var j :| 0 <= j < n && cs[j] == c;
      assert f[at + j] == c;
      forall k | 0 <= k < |u| ensures u[k] != c {
        CutIndex(f, at, n, k);
        if k >= at {
          assert f[at + n..][k - at] == f[k + n];
        }
      }
    }
  }

  /** collapse keeps every line showing the entry at its index: the same
      entries leave both lists, and no Level or Expanded flag changes. */
  lemma CollapseKeepsShown(s: TreeState, item: ItemId)
    requires CollapseDefined(s, item) && Shown(s)
    ensures Shown(Collapse(s, item))
  {
    var r := Collapse(s, item);
    var idx := s.position[item];
    var n := |s.data[item].children|;
    forall k | 0 <= k < |r.flat|
      ensures r.flat[k] in r.data && r.flat[k] in r.level && r.flat[k] in r.expanded
      ensures r.lines[k] == Title(r, r.flat[k])
    {
      CutIndex(s.flat, idx + 1, n, k);
      CutIndex(s.lines, idx + 1, n, k);
    }
  }

  /** After expand the item has not moved and its children follow it, so
      collapse may run. */
  lemma ExpandThenCanCollapse(s: TreeState, item: ItemId)
    requires CanExpand(s, item)
    ensures CanCollapse(Expand(s, item), item)
    ensures Expand(s, item).position[item] == s.position[item]
  {
    var e := Expand(s, item);
    var idx := s.position[item];
    var cs := s.data[item].children;
    ExpandKeepsValid(s, item);
    ExpandFrames(s, item);
    SpliceParts(s.flat, idx + 1, cs);
    assert e.flat[idx] == item;
  }

  /** The Position part of CollapseUndoesExpand. */
  lemma CollapseRestoresPositions(s: TreeState, item: ItemId)
    requires ExpandDefined(s, item) && CollapseDefined(Expand(s, item), item)
    requires forall c | c in s.data[item].children :: c !in s.flat && s.position[c] == -1
    requires Expand(s, item).position[item] == s.position[item]
    ensures Collapse(Expand(s, item), item).position == s.position
  {
    var e := Expand(s, item);
    var cs := s.data[item].children;
    ExpandParts(s, item);
    CollapsePositionOf(e, item, s.position[item], cs, e.flat[s.position[item] + 1 + |cs|..]);
    CutUndoesSplicePositionsAt(s.flat, s.position, cs, s.position[item] + 1, e.flat, e.position,
                               Collapse(e, item).position);
  }

  /** The projection part of CollapseUndoesExpand. */
  lemma CollapseRestoresFlat(s: TreeState, item: ItemId)
    requires ExpandDefined(s, item) && CollapseDefined(Expand(s, item), item)
    requires Expand(s, item).position[item] == s.position[item]
    ensures Collapse(Expand(s, item), item).flat == s.flat
  {
    var e := Expand(s, item);
    var cs := s.data[item].children;
    CutUndoesSplice(s.flat, s.position[item] + 1, cs, e.position[item] + 1, |e.data[item].children|);
  }

  /** The list-box part of CollapseUndoesExpand. */
  lemma CollapseRestoresLines(s: TreeState, item: ItemId)
    requires ExpandDefined(s, item) && CollapseDefined(Expand(s, item), item)
    requires Expand(s, item).position[item] == s.position[item]
    ensures Collapse(Expand(s, item), item).lines == s.lines
  {
    var e := Expand(s, item);
    var cs := s.data[item].children;
    CutUndoesSplice(s.lines, s.position[item] + 1, ChildTitles(s.data, s.expanded, cs, s.level[item] + 1),
                    e.position[item] + 1, |e.data[item].children|);
  }

  /** collapse undoes expand on the projection, the list box and every
      Position, when the children were parked at -1 before. */
  lemma {:induction false} CollapseUndoesExpand(s: TreeState, item: ItemId)
    requires CanExpand(s, item)
    requires forall c | c in s.data[item].children :: s.position[c] == -1
    ensures CanCollapse(Expand(s, item), item)
    ensures Collapse(Expand(s, item), item).flat == s.flat
    ensures Collapse(Expand(s, item), item).lines == s.lines
    ensures Collapse(Expand(s, item), item).position == s.position
  {
    ExpandThenCanCollapse(s, item);
    CollapseRestoresFlat(s, item);
    CollapseRestoresLines(s, item);
    CollapseRestoresPositions(s, item);
  }
}
