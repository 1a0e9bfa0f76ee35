/** Two places where TreeView (ConsoleFramework/Controls/TreeView.cs) hides
    too few or too many entries, each shown on a small tree, and a corrected
    collapse that hides exactly what is shown beneath an item, judged by the
    Level of the entries that follow it.

    - collapse (TreeView.cs:184-195) cuts as many entries as the item has
      children, whatever those entries are. When a child is expanded, its
      own children sit between the item's children. Removing such a root
      (TreeView.cs:145-152) leaves the grandchildren listed and their
      cached Positions wrong.
    - the collapsing branch of expandCollapse (TreeView.cs:199-208)
      collapses only the direct children that are flagged, then the item. An
      item flagged Expanded whose children were never shown makes it cut
      entries that belong to other items, and an expanded grandchild leaves
      its children listed under nobody. */
module TreeFindings {
  import opened Seqs
  import opened TreeItems
  import opened TreeProjection
  import opened TreeChanges
  import opened TreeToggle
  import opened ExpandCollapse

  // ---------------------------------------------------------------------
  // The collapsing branch of expandCollapse as the source writes it.

  /** collapse(child) for each child in `cs` whose Expanded flag is set, in
      order; None where a collapse would index outside the lists. */
  ghost function CollapseEach(s: TreeState, cs: seq<ItemId>): (r: Option<TreeState>)
    requires Fields(s) && AllIn(cs, s.data)
    ensures r.Some? ==> Fields(r.value) && r.value.data == s.data && r.value.roots == s.roots
    ensures r.Some? ==> r.value.level == s.level && r.value.expanded == s.expanded
    ensures r.Some? ==> |r.value.flat| <= |s.flat|
    decreases |cs|
  {
    if cs == [] then Some(s)
    else
      match CollapseEach(s, cs[..|cs| - 1])
      case None => None
      case Some(u) =>
        var c := cs[|cs| - 1];
        if !u.expanded[c] then Some(u)
        else if !CollapseDefined(u, c) then None
        else CollapseKeys(u, c); Some(Collapse(u, c))
  }

  /** The collapsing branch of expandCollapse on any state where what it
      reads exists: the flagged children are collapsed, then the item, then
      its flag is cleared and its line rewritten at the index it had. */
  ghost function FoldAsWritten(s: TreeState, item: ItemId): (r: Option<TreeState>)
    requires Fields(s) && item in s.data
    ensures r.Some? ==> r.value.data == s.data && r.value.roots == s.roots && r.value.level == s.level
    ensures r.Some? ==> r.value.expanded == s.expanded[item := false]
  {
    match CollapseEach(s, s.data[item].children)
    case None => None
    case Some(u) =>
      var idx := s.position[item];
      if !CollapseDefined(u, item) then None
      else
        var v := Collapse(u, item);
        if !(0 <= idx < |v.lines|) then None
        else Some(SetFlag(v, item, idx, false))
  }

  // ---------------------------------------------------------------------
  // What the tree view is meant to keep beyond Valid.

  /** Every root is listed. */
  ghost predicate RootsListed(s: TreeState) {
    forall x | x in s.roots :: x in s.flat
  }

  /** Every listed entry is a root or a child of an entry listed before it. */
  ghost predicate Attached(s: TreeState)
    requires forall x | x in s.flat :: x in s.data
  {
    forall k | 0 <= k < |s.flat| ::
      s.flat[k] in s.roots || exists j | 0 <= j < k :: s.flat[k] in s.data[s.flat[j]].children
  }

  // ---------------------------------------------------------------------
  // The trees that show the discrepancies.

  /** An item with the given children, enabled and untitled. */
  function Item(children: seq<ItemId>): ItemData {
    ItemData("", false, children)
  }

  /** The chain 0, 1, 2, 3, each the only child of the one before; 0, 1
      and 2 are expanded, so all four are listed in that order. */
  function Chain(): TreeState {
    TreeState(
      map[0 := Item([1]), 1 := Item([2]), 2 := Item([3]), 3 := Item([])],
      [0], [0, 1, 2, 3], ["", "", "", ""], [],
      map[0 := 0, 1 := 1, 2 := 2, 3 := 3],
      map[0 := 0, 1 := 1, 2 := 2, 3 := 3],
      map[0 := true, 1 := true, 2 := true, 3 := false])
  }

  /** Roots 0 and 1; 0 has the child 2 and its flag is set, but 2 is not
      listed: the list is 0, 1. */
  function FlaggedUnshown(): TreeState {
    TreeState(
      map[0 := Item([2]), 1 := Item([]), 2 := Item([])],
      [0, 1], [0, 1], ["", ""], [],
      map[0 := 0, 1 := 1, 2 := -1],
      map[0 := 0, 1 := 0, 2 := 1],
      map[0 := true, 1 := false, 2 := false])
  }

  /** Chain is a valid projection. */
  lemma ChainValid()
    ensures Valid(Chain())
  {
    var s := Chain();
    assert s.data.Keys == {0, 1, 2, 3};
    assert ChildrenIn(s.data) by {
      forall id | id in s.data ensures AllIn(s.data[id].children, s.data) {
        assert id in {0, 1, 2, 3};
      }
    }
  }

  /** A list whose first entry is a root and whose every other entry is a
      child of the entry before it hangs under that root. */
  lemma ChainAttached(s: TreeState)
    requires forall x | x in s.flat :: x in s.data
    requires |s.flat| > 0 ==> s.flat[0] in s.roots
    requires forall k | 1 <= k < |s.flat| :: s.flat[k] in s.data[s.flat[k - 1]].children
    ensures Attached(s)
  {
    forall k | 0 < k < |s.flat|
      ensures exists j | 0 <= j < k :: s.flat[k] in s.data[s.flat[j]].children
    {
      assert s.flat[k] in s.data[s.flat[k - 1]].children;
    }
  }

  /** Every entry of Chain hangs under the root. */
  lemma ChainHangs()
    ensures Valid(Chain()) && Attached(Chain())
  {
    ChainValid();
    var s := Chain();
    assert s.flat[1] in s.data[s.flat[0]].children;
    assert s.flat[2] in s.data[s.flat[1]].children;
    assert s.flat[3] in s.data[s.flat[2]].children;
    ChainAttached(s);
  }

  /** FlaggedUnshown is a valid projection that lists both roots. */
  lemma FlaggedUnshownValid()
    ensures Valid(FlaggedUnshown()) && RootsListed(FlaggedUnshown())
  {
    var s := FlaggedUnshown();
    assert s.data.Keys == {0, 1, 2};
    assert ChildrenIn(s.data) by {
      forall id | id in s.data ensures AllIn(s.data[id].children, s.data) {
        assert id in {0, 1, 2};
      }
    }
  }

  /** A list whose first entry is not a root is not attached. */
  lemma FirstUnattached(s: TreeState)
    requires forall x | x in s.flat :: x in s.data
    requires |s.flat| > 0 && s.flat[0] !in s.roots
    ensures !Attached(s)
  {
  }

  /** Cutting the first two of four entries leaves the last two. */
  lemma CutFirstTwo<T>(a: seq<T>)
    requires |a| == 4
    ensures Cut(a, 0, 2) == [a[2], a[3]]
  {
  }

  /** Removing the first of four entries, expanded with one child right
      after it, leaves the third and the fourth; when the third is not a root
      the list is left unattached. */
  lemma RemoveLeavesLastTwo(s: TreeState, item: ItemId)
    requires CanCollapse(s, item) && s.expanded[item] && s.position[item] == 0
    requires |s.data[item].children| == 1 && |s.flat| == 4 && s.flat[2] !in s.roots
    ensures RemoveRoot(s, item).Done? && Valid(RemoveRoot(s, item).state)
    ensures RemoveRoot(s, item).state.flat == [s.flat[2], s.flat[3]]
    ensures !Attached(RemoveRoot(s, item).state)
  {
    RemoveRootKeepsValid(s, item);
    CutFirstTwo(s.flat);
    FirstUnattached(RemoveRoot(s, item).state);
  }

  /** Removing the root of Chain collapses it first, which cuts only its
      child 1: the projection stays valid, but 2 and 3 stay listed with no
      root above them. */
  lemma RemoveLeavesOrphans()
    ensures Valid(Chain()) && CanCollapse(Chain(), 0)
    ensures RemoveRoot(Chain(), 0).Done? && Valid(RemoveRoot(Chain(), 0).state)
    ensures RemoveRoot(Chain(), 0).state.flat == [2, 3]
    ensures !Attached(RemoveRoot(Chain(), 0).state)
  {
    ChainValid();
    var s := Chain();
    assert s.flat[1..2] == [1];
    RemoveLeavesLastTwo(s, 0);
  }

  /** On FlaggedUnshown the source's collapsing branch cuts root 1 out of the
      list in place of the unlisted child 2; the condition under which Toggle
      is defined fails there. */
  lemma FoldDropsSibling()
    ensures Valid(FlaggedUnshown()) && RootsListed(FlaggedUnshown())
    ensures !CanToggle(FlaggedUnshown(), 0)
    ensures FoldAsWritten(FlaggedUnshown(), 0).Some?
    ensures FoldAsWritten(FlaggedUnshown(), 0).value.flat == [0]
    ensures !RootsListed(FoldAsWritten(FlaggedUnshown(), 0).value)
  {
    FlaggedUnshownValid();
    var s := FlaggedUnshown();
    assert Below(s, 0) == [2];
    assert s.flat[1..2] == [1];
    assert CollapseEach(s, [2]) == Some(s);
    var r := FoldAsWritten(s, 0).value;
    assert r.flat == Cut(s.flat, 1, 1) == [0];
    assert 1 in r.roots && 1 !in r.flat;
  }

  /** Removing root 0 of FlaggedUnshown collapses it first, which cuts the
      entry after it, root 1, in place of the unlisted child 2: the list is
      left empty while root 1 is still a root. */
  lemma RemoveDropsSibling()
    ensures Valid(FlaggedUnshown()) && RootsListed(FlaggedUnshown())
    ensures RemoveRoot(FlaggedUnshown(), 0).Done?
    ensures RemoveRoot(FlaggedUnshown(), 0).state.flat == []
    ensures 1 in RemoveRoot(FlaggedUnshown(), 0).state.roots
  {
    FlaggedUnshownValid();
    var s := FlaggedUnshown();
    assert s.position[0] == 0 && s.data[0].children == [2];
    var t := Collapse(s, 0);
    assert t.flat == Cut(s.flat, 1, 1) == [0];
    assert s.flat[2..] == [];
    assert t.position[0] == 0;
  }

  /** Toggle is defined on the root of Chain, which shows 1 and 2 below
      itself. */
  lemma ChainCanToggle()
    ensures Valid(Chain()) && CanToggle(Chain(), 0)
    ensures Chain().position[0] == 0 && |Below(Chain(), 0)| == 2
  {
    ChainValid();
    var s := Chain();
    assert Kids(s.data, s.expanded, 1) == [2];
    assert Blocks(s.data, s.expanded, [1]) == [1, 2];
    assert s.flat[1..3] == [1, 2];
  }

  /** A list of two entries whose second is neither a root nor a child of
      the first is not attached. */
  lemma SecondUnattached(s: TreeState)
    requires |s.flat| == 2 && s.flat[0] in s.data && s.flat[1] in s.data
    requires s.flat[1] !in s.roots && s.flat[1] !in s.data[s.flat[0]].children
    ensures (forall x | x in s.flat :: x in s.data) && !Attached(s)
  {
  }

  /** The collapsing branch cuts what the item shows below itself. */
  lemma ToggleCuts(s: TreeState, item: ItemId)
    requires CanToggle(s, item) && s.expanded[item]
    ensures Toggle(s, item).flat == Cut(s.flat, s.position[item] + 1, |Below(s, item)|)
  {
    ToggleCollapses(s, item);
  }

  /** Cutting the middle two of four entries leaves the first and the last. */
  lemma CutSecondThird<T>(a: seq<T>)
    requires |a| == 4
    ensures Cut(a, 1, 2) == [a[0], a[3]]
  {
  }

  /** The collapsing branch on the first of four entries, which shows the
      next two below itself, leaves the first and the fourth; when the fourth
      is neither a root nor a child of the first, it is left unattached. */
  lemma ToggleLeavesFourth(s: TreeState)
    requires CanToggle(s, 0) && s.expanded[0] && s.position[0] == 0
    requires |Below(s, 0)| == 2 && |s.flat| == 4
    requires s.flat[3] !in s.roots && s.flat[3] !in s.data[s.flat[0]].children
    ensures Toggle(s, 0).flat == [s.flat[0], s.flat[3]]
    ensures !Attached(Toggle(s, 0))
  {
    ToggleCuts(s, 0);
    CutSecondThird(s.flat);
    SecondUnattached(Toggle(s, 0));
  }

  /** On Chain the collapsing branch collapses 1, which cuts only 2, then 0,
      which cuts only 1: 3 stays listed right after 0 though its parent 2 is
      gone. */
  lemma FoldOrphansGrandchild()
    ensures Valid(Chain()) && CanToggle(Chain(), 0)
    ensures Toggle(Chain(), 0).flat == [0, 3]
    ensures !Attached(Toggle(Chain(), 0))
  {
    ChainCanToggle();
    var s := Chain();
    assert s.flat[3] !in s.roots && s.flat[3] !in s.data[s.flat[0]].children;
    ToggleLeavesFourth(s);
  }

  /** The fold over the children of an item with one flagged child is that
      child's collapse. */
  lemma CollapseEachOne(s: TreeState, c: ItemId)
    requires Fields(s) && c in s.data && s.expanded[c] && CollapseDefined(s, c)
    ensures CollapseEach(s, [c]) == Some(Collapse(s, c))
  {
    assert [c][..0] == [];
  }

  /** The collapsing branch as written, once the children are folded into u
      and the item's collapse is defined on u. */
  lemma FoldAsWrittenAfter(s: TreeState, item: ItemId, u: TreeState)
    requires Fields(s) && item in s.data
    requires CollapseEach(s, s.data[item].children) == Some(u) && CollapseDefined(u, item)
    requires 0 <= s.position[item] < |Collapse(u, item).lines|
    ensures FoldAsWritten(s, item) == Some(SetFlag(Collapse(u, item), item, s.position[item], false))
  {
  }

  /** Cutting one entry at index 1 or 2. */
  lemma CutOne<T>(a: seq<T>)
    ensures |a| == 4 ==> Cut(a, 2, 1) == [a[0], a[1], a[3]]
    ensures |a| == 3 ==> Cut(a, 1, 1) == [a[0], a[2]]
  {
  }

  /** The collapsing branch as written on the first of four entries, whose
      only child is the second and is expanded with one child of its own:
      the child's collapse cuts the third entry, the item's collapse cuts the
      child, and the fourth entry is left after the item. */
  lemma FoldAsWrittenLeavesFourth(s: TreeState, item: ItemId, c: ItemId)
    requires CanCollapse(s, c) && s.expanded[c] && |s.data[c].children| == 1
    requires item in s.data && s.data[item].children == [c]
    requires |s.flat| == 4 && s.flat[0] == item && s.position[c] == 1
    ensures FoldAsWritten(s, item).Some?
    ensures FoldAsWritten(s, item).value.flat == [s.flat[0], s.flat[3]]
  {
    CollapseKeepsValid(s, c);
    CollapseParts(s, c);
    var u := Collapse(s, c);
    CutOne(s.flat);
    assert u.flat[0] == item && |u.flat| == 3;
    CollapseEachOne(s, c);
    CollapseParts(u, item);
    CutOne(u.flat);
    FoldAsWrittenAfter(s, item, u);
  }

  /** The source's collapsing branch, written out on its own, gives the
      same list as Toggle on Chain. */
  lemma FoldAsWrittenOnChain()
    ensures FoldAsWritten(Chain(), 0).Some?
    ensures FoldAsWritten(Chain(), 0).value.flat == [0, 3]
  {
    ChainValid();
    var s := Chain();
    assert s.flat[2..3] == [2];
    FoldAsWrittenLeavesFourth(s, 0, 1);
  }

  // ---------------------------------------------------------------------
  // The corrected collapse: cut what is shown beneath the item.

  /** The number of entries from index `from` on that are deeper than `lvl`,
      up to the first that is not. */
  function DeeperRun(flat: seq<ItemId>, level: map<ItemId, nat>, from: nat, lvl: nat): (n: nat)
    requires from <= |flat| && forall x | x in flat :: x in level
    ensures from + n <= |flat|
    ensures forall k | from <= k < from + n :: level[flat[k]] > lvl
    ensures from + n < |flat| ==> level[flat[from + n]] <= lvl
    decreases |flat| - from
  {
    if from == |flat| || level[flat[from]] <= lvl then 0
    else 1 + DeeperRun(flat, level, from + 1, lvl)
  }

  /** How many entries after a listed item are shown beneath it. */
  ghost function Beneath(s: TreeState, item: ItemId): (n: nat)
    requires Valid(s) && item in s.flat
    ensures 0 <= s.position[item] && s.position[item] + 1 + n <= |s.flat|
  {
    VisibleAt(s, item);
    DeeperRun(s.flat, s.level, s.position[item] + 1, s.level[item])
  }

  /** Cutting the n entries after index idx out of a valid projection: they
      leave the list, the lines and the disabled indexes, they get Position
      -1, and every later entry moves up by n. The result is a valid
      projection that keeps everything up to idx in place. */
  ghost function CutRun(s: TreeState, idx: int, n: nat): (r: TreeState)
    requires Valid(s) && 0 <= idx && idx + 1 + n <= |s.flat|
    ensures Valid(r)
    ensures r.data == s.data && r.roots == s.roots && r.level == s.level && r.expanded == s.expanded
    ensures r.flat == Cut(s.flat, idx + 1, n)
    ensures r.flat[..idx + 1] == s.flat[..idx + 1]
    ensures idx + 1 < |r.flat| ==> r.flat[idx + 1] == s.flat[idx + 1 + n]
    ensures forall x | x in s.flat && x !in r.flat :: x in s.flat[idx + 1..idx + 1 + n] && r.position[x] == -1
  {
    var cut := s.flat[idx + 1..idx + 1 + n];
    var r := s.(flat := Cut(s.flat, idx + 1, n),
                lines := Cut(s.lines, idx + 1, n),
                disabledIndexes := RemoveSlots(s.disabledIndexes, s.data, cut, idx + 1),
                position := Shift(Park(s.position, cut), s.flat[idx + 1 + n..], -(n as int)));
    ValidIndexed(s);
    CutRunIndexed(s.flat, s.position, idx + 1, n, r.flat, r.position);
    IndexedKeepsValid(s, r);
    r
  }

  /** collapse, corrected: the run of entries after the item that are deeper
      than it is cut out. */
  ghost function CollapseShown(s: TreeState, item: ItemId): (r: TreeState)
    requires Valid(s) && item in s.flat
  {
    CutRun(s, s.position[item], Beneath(s, item))
  }

  /** Every entry of the run DeeperRun counts is deeper than lvl. */
  lemma RunDeeper(flat: seq<ItemId>, level: map<ItemId, nat>, from: nat, lvl: nat)
    requires from <= |flat| && forall x | x in flat :: x in level
    ensures forall x | x in flat[from..from + DeeperRun(flat, level, from, lvl)] :: x in level && level[x] > lvl
  {
    var n := DeeperRun(flat, level, from, lvl);
    forall x | x in flat[from..from + n] ensures x in level && level[x] > lvl {
      var j :| 0 <= j < n && flat[from..from + n][j] == x;
      assert flat[from + j] == x;
    }
  }

  /** Cutting the run DeeperRun counts out of a list takes out only
      entries deeper than lvl, and the entry that moves up to the cut is not
      deeper. */
  lemma CutDeeperRun(flat: seq<ItemId>, level: map<ItemId, nat>, from: nat, lvl: nat, u: seq<ItemId>)
    requires from <= |flat| && forall x | x in flat :: x in level
    requires u == Cut(flat, from, DeeperRun(flat, level, from, lvl))
    ensures forall x | x in flat && x !in u :: level[x] > lvl
    ensures from < |u| ==> level[u[from]] <= lvl
  {
    var n := DeeperRun(flat, level, from, lvl);
    CutMembers(flat, from, n);
    RunDeeper(flat, level, from, lvl);
  }

  /** The corrected collapse keeps the projection invariant, keeps the item
      and everything before it in place, and parks what it takes out. */
  lemma CollapseShownKeepsValid(s: TreeState, item: ItemId)
    requires Valid(s) && item in s.flat
    ensures Valid(CollapseShown(s, item))
    ensures CollapseShown(s, item).data == s.data && CollapseShown(s, item).roots == s.roots
    ensures CollapseShown(s, item).level == s.level && CollapseShown(s, item).expanded == s.expanded
    ensures 0 <= s.position[item] < |CollapseShown(s, item).flat|
    ensures CollapseShown(s, item).flat[..s.position[item] + 1] == s.flat[..s.position[item] + 1]
    ensures CollapseShown(s, item).position[item] == s.position[item]
    ensures forall x | x in s.flat && x !in CollapseShown(s, item).flat :: CollapseShown(s, item).position[x] == -1
  {
    var r := CollapseShown(s, item);
    var idx := s.position[item];
    VisibleAt(s, item);
    assert r.flat[idx] == item;
  }

  /** The corrected collapse takes out only entries deeper than the item,
      and stops at the first entry that is not. */
  lemma CollapseShownCutsDeeper(s: TreeState, item: ItemId)
    requires Valid(s) && item in s.flat
    ensures forall x | x in s.flat && x !in CollapseShown(s, item).flat :: s.level[x] > s.level[item]
    ensures s.position[item] + 1 < |CollapseShown(s, item).flat| ==>
      s.level[CollapseShown(s, item).flat[s.position[item] + 1]] <= s.level[item]
  {
    var idx := s.position[item];
    CollapseShownFlat(s, item, idx);
    CutDeeperRun(s.flat, s.level, idx + 1, s.level[item], CollapseShown(s, item).flat);
  }

  /** The corrected collapse cuts the deeper run after the item. */
  lemma CollapseShownFlat(s: TreeState, item: ItemId, idx: int)
    requires Valid(s) && item in s.flat && idx == s.position[item]
    ensures 0 <= idx + 1 <= |s.flat| && forall x | x in s.flat :: x in s.level
    ensures CollapseShown(s, item).flat == Cut(s.flat, idx + 1, DeeperRun(s.flat, s.level, idx + 1, s.level[item]))
  {
    var n := Beneath(s, item);
    assert n == DeeperRun(s.flat, s.level, idx + 1, s.level[item]);
    assert CollapseShown(s, item) == CutRun(s, idx, n);
  }

  /** The collapsing branch of expandCollapse, corrected: the corrected
      collapse, then the flag and the item's line. */
  ghost function FoldShown(s: TreeState, item: ItemId): (r: TreeState)
    requires Valid(s) && item in s.flat
    ensures Valid(r) && r.data == s.data && r.roots == s.roots && r.level == s.level
    ensures r.expanded == s.expanded[item := false]
    ensures r.flat == CollapseShown(s, item).flat && r.position == CollapseShown(s, item).position
  {
    CollapseShownKeepsValid(s, item);
    var v := CollapseShown(s, item);
    SetFlagKeepsValid(v, item, s.position[item], false);
    SetFlag(v, item, s.position[item], false)
  }

  /** Taking entry p out of a valid projection, with its line, and moving
      every later entry up by one gives a valid projection. */
  ghost function RemoveEntry(t: TreeState, p: int): (r: TreeState)
    requires Valid(t) && 0 <= p < |t.flat|
    ensures Valid(r) && r.flat == RemoveAt(t.flat, p)
    ensures r.data == t.data && r.roots == t.roots && r.level == t.level && r.expanded == t.expanded
  {
    var r := t.(flat := RemoveAt(t.flat, p),
                lines := RemoveAt(t.lines, p),
                position := Shift(t.position, t.flat[p + 1..], -1));
    ValidIndexed(t);
    RemoveIndexed(t.flat, t.position, p, r.flat, r.position);
    forall x | x in r.flat ensures x in r.data {
      var k :| 0 <= k < |r.flat| && r.flat[k] == x;
      RemoveAtIndex(t.flat, p, k);
    }
    r
  }

  /** One turn of the remove loop, corrected: the corrected collapse, then
      the root's entry and line go and every later entry moves up by one.
      The result is valid and its list is the old one without the root and
      the run of entries shown beneath it. */
  ghost function RemoveRootShown(s: TreeState, item: ItemId): (r: TreeState)
    requires Valid(s) && item in s.flat
    ensures Valid(r)
    ensures r.flat == Cut(s.flat, s.position[item], 1 + Beneath(s, item))
  {
    var p := s.position[item];
    var n := Beneath(s, item);
    var t := CutRun(s, p, n);
    var r := RemoveEntry(t, p);
    assert r.flat == RemoveAt(Cut(s.flat, p + 1, n), p);
    RemoveAtCut(s.flat, p, n);
    r
  }

  /** Without duplicates, the first cut entry is gone from what remains. */
  lemma CutDropsFirst<T>(f: seq<T>, at: int, n: int)
    requires NoDup(f) && 0 <= at && 1 <= n && at + n <= |f|
    ensures f[at] !in Cut(f, at, n)
  {
    NoDupIndexes(f);
    var c := Cut(f, at, n);
    forall k | 0 <= k < |c| ensures c[k] != f[at] {
      if k < at {
        assert c[k] == f[k];
      } else {
        assert c[k] == f[k + n];
      }
    }
  }

  /** An element that a cut takes out lies in the cut slice. */
  lemma CutOut<T>(f: seq<T>, at: int, n: int, x: T)
    requires 0 <= at && 0 <= n && at + n <= |f| && x in f && x !in Cut(f, at, n)
    ensures x in f[at..at + n]
  {
    assert f == f[..at] + f[at..at + n] + f[at + n..];
  }

  /** An element of a non-empty slice is its first entry or lies in the rest. */
  lemma SliceFront<T>(f: seq<T>, at: int, n: int, x: T)
    requires 0 <= at && 1 <= n && at + n <= |f| && x in f[at..at + n]
    ensures x == f[at] || x in f[at + 1..at + n]
  {
    assert f[at..at + n] == [f[at]] + f[at + 1..at + n];
  }

  /** An entry that cutting an entry and a run of deeper entries after it
      takes out is that entry or deeper than it. */
  lemma RemovedFromRun(f: seq<ItemId>, level: map<ItemId, nat>, p: int, n: nat, x: ItemId)
    requires 0 <= p && p + 1 + n <= |f| && f[p] in level
    requires forall y | y in f[p + 1..p + 1 + n] :: y in level && level[y] > level[f[p]]
    requires x in f && x !in Cut(f, p, 1 + n)
    ensures x == f[p] || (x in level && level[x] > level[f[p]])
  {
    CutOut(f, p, 1 + n, x);
    SliceFront(f, p, 1 + n, x);
  }

  /** Cutting an entry together with a run of n deeper entries after it out
      of a list without duplicates: the entry is gone, every entry taken out
      is that entry or deeper than it, and the entry that moves up to its
      index is not deeper when the run ends at one that is not. */
  lemma CutRunDeeper(f: seq<ItemId>, level: map<ItemId, nat>, p: int, n: nat, u: seq<ItemId>)
    requires NoDup(f) && 0 <= p && p + 1 + n <= |f| && f[p] in level
    requires forall y | y in f[p + 1..p + 1 + n] :: y in level && level[y] > level[f[p]]
    requires p + 1 + n < |f| ==> f[p + 1 + n] in level && level[f[p + 1 + n]] <= level[f[p]]
    requires u == Cut(f, p, 1 + n)
    ensures f[p] !in u
    ensures forall x | x in f && x !in u :: x == f[p] || (x in level && level[x] > level[f[p]])
    ensures p < |u| ==> u[p] in level && level[u[p]] <= level[f[p]]
  {
    CutDropsFirst(f, p, 1 + n);
    CutMembers(f, p, 1 + n);
    forall x | x in f && x !in u ensures x == f[p] || (x in level && level[x] > level[f[p]]) {
      RemovedFromRun(f, level, p, n, x);
    }
  }

  /** Cutting an entry of a list without duplicates together with the run
      of deeper entries DeeperRun counts after it: the entry is gone, every
      entry taken out is that entry or deeper than it, and the entry that
      moves up to its index is not deeper. */
  lemma RemoveDeeperRun(f: seq<ItemId>, level: map<ItemId, nat>, p: int, n: nat, u: seq<ItemId>)
    requires NoDup(f) && 0 <= p < |f| && forall x | x in f :: x in level
    requires n == DeeperRun(f, level, p + 1, level[f[p]]) && u == Cut(f, p, 1 + n)
    ensures f[p] !in u
    ensures forall x | x in f && x !in u :: x == f[p] || level[x] > level[f[p]]
    ensures p < |u| ==> level[u[p]] <= level[f[p]]
  {
    RunDeeper(f, level, p + 1, level[f[p]]);
    CutRunDeeper(f, level, p, n, u);
  }

  /** The corrected removal takes the root out of the list, takes out only
      entries deeper than it besides, and stops at the first entry that is
      not. */
  lemma RemoveRootShownCutsDeeper(s: TreeState, item: ItemId)
    requires Valid(s) && item in s.flat
    ensures item !in RemoveRootShown(s, item).flat
    ensures forall x | x in s.flat && x !in RemoveRootShown(s, item).flat ::
      x == item || s.level[x] > s.level[item]
    ensures s.position[item] < |RemoveRootShown(s, item).flat| ==>
      s.level[RemoveRootShown(s, item).flat[s.position[item]]] <= s.level[item]
  {
    VisibleAt(s, item);
    ValidNoDup(s);
    var p := s.position[item];
    var lvl := s.level[s.flat[p]];
    assert Beneath(s, item) == DeeperRun(s.flat, s.level, p + 1, lvl);
    RemoveDeeperRun(s.flat, s.level, p, Beneath(s, item), RemoveRootShown(s, item).flat);
  }

  /** Collapsing 0 in Chain, corrected, hides 1, 2 and 3. */
  lemma FoldShownOnChain()
    ensures Valid(Chain()) && FoldShown(Chain(), 0).flat == [0]
    ensures Attached(FoldShown(Chain(), 0))
  {
    ChainValid();
    var s := Chain();
    assert s.flat[0] == 0;
    assert Beneath(s, 0) == 3;
    assert Cut(s.flat, 1, 3) == [0];
  }

  /** Collapsing 0 in FlaggedUnshown, corrected, hides nothing and keeps
      root 1 listed. */
  lemma FoldShownKeepsSibling()
    ensures Valid(FlaggedUnshown()) && FoldShown(FlaggedUnshown(), 0).flat == [0, 1]
    ensures RootsListed(FoldShown(FlaggedUnshown(), 0))
  {
    FlaggedUnshownValid();
    var s := FlaggedUnshown();
    assert s.flat[0] == 0;
    assert Beneath(s, 0) == 0;
    CutNothing(s.flat, 1);
  }

  /** Removing root 0 of FlaggedUnshown, corrected, keeps root 1 listed. */
  lemma RemoveShownKeepsSibling()
    ensures Valid(FlaggedUnshown()) && RemoveRootShown(FlaggedUnshown(), 0).flat == [1]
  {
    FlaggedUnshownValid();
    var s := FlaggedUnshown();
    assert s.flat[0] == 0;
    assert Beneath(s, 0) == 0;
  }

  /** Removing the root of Chain, corrected, empties the list. */
  lemma RemoveShownOnChain()
    ensures Valid(Chain()) && RemoveRootShown(Chain(), 0).flat == []
  {
    ChainValid();
    var s := Chain();
    assert s.flat[0] == 0;
    assert Beneath(s, 0) == 3;

  }
}
