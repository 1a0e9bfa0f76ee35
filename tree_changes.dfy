/** TreeView.ItemsOnListChanged (ConsoleFramework/Controls/TreeView.cs:122-163)
    for notifications raised by the root list TreeView.items. The handler
    always reads the root list, whichever list raised the event, so only
    root-level insertions and removals are modelled. */
module TreeChanges {
  import opened Seqs
  import opened TreeItems
  import opened TreeProjection

  /** The ListChangedEventArgs the handler receives. */
  datatype ListChange =
    | ItemsInserted(index: int, count: int)
    | ItemsRemoved(removed: seq<ItemId>)
    | OtherChange

  /** The exception the handler throws. */
  datatype Failure = NotSupported | IndexOutOfRange

  /** The state the handler leaves, or the exception it throws. */
  datatype Outcome = Done(state: TreeState) | Failed(failure: Failure)

  /** What every step of the handler keeps whatever its input: every item has
      its fields, children and roots are items, and the list box has one line
      per entry of the projection. */
  ghost predicate Fields(s: TreeState) {
    && s.position.Keys == s.data.Keys
    && s.level.Keys == s.data.Keys
    && s.expanded.Keys == s.data.Keys
    && ChildrenIn(s.data)
    && AllIn(s.roots, s.data)
    && |s.lines| == |s.flat|
  }

  // ---------------------------------------------------------------------
  // insertion (TreeView.cs:124-142)

  /** Where the insert loop puts the root at index k: the current Position of
      the root before it, or 0 for the first root. */
  ghost function InsertSlot(s: TreeState, k: int): int
    requires Fields(s) && 0 <= k <= |s.roots|
  {
    if k - 1 >= 0 then s.position[s.roots[k - 1]] else 0
  }

  /** One turn of the insert loop for the root at index k: the item takes
      the slot and every entry from the slot on moves down by one, the item
      itself too when it is already listed there. The item and its line then
      go in at the Position the item holds after that loop, and a disabled
      item's Position is added to the disabled indexes. Its Level is left as
      it is. */
  ghost function InsertRoot(s: TreeState, k: int): (r: Outcome)
    requires Fields(s)
    ensures r.Failed? ==> r.failure == IndexOutOfRange
    ensures r.Done? ==> Fields(r.state) && r.state.data == s.data && r.state.roots == s.roots
    ensures r.Done? ==> r.state.level == s.level && r.state.expanded == s.expanded
    ensures r.Done? ==> |r.state.flat| == |s.flat| + 1
    ensures r.Done? ==> 0 <= k < |s.roots| && s.roots[k] in r.state.position
    ensures r.Done? ==> var q := r.state.position[s.roots[k]];
      0 <= q < |r.state.flat| && r.state.flat[q] == s.roots[k] && r.state.lines[q] == Title(s, s.roots[k])
  {
    if !(0 <= k < |s.roots|) then Failed(IndexOutOfRange)
    else
      var item := s.roots[k];
      var p := InsertSlot(s, k);
      if !(0 <= p <= |s.flat|) then Failed(IndexOutOfRange)
      else
        PositionKeys(s.position[item := p], s.flat[p..], 1);
        var pos := Shift(s.position[item := p], s.flat[p..], 1);
        var q := pos[item];
        if !(0 <= q <= |s.flat|) then Failed(IndexOutOfRange)
        else
          Done(s.(flat := InsertAt(s.flat, q, item),
                  lines := InsertAt(s.lines, q, Title(s, item)),
                  disabledIndexes := if s.data[item].disabled then s.disabledIndexes + [q] else s.disabledIndexes,
                  position := pos))
  }

  /** The insert loop from the root at index i up to (not including) hi:
      one turn, then the rest of the loop on the state it leaves. */
  ghost function InsertRun(s: TreeState, i: int, hi: int): (r: Outcome)
    requires Fields(s)
    ensures r.Failed? ==> r.failure == IndexOutOfRange
    ensures r.Done? ==> Fields(r.state) && r.state.data == s.data && r.state.roots == s.roots
    ensures r.Done? ==> r.state.level == s.level && r.state.expanded == s.expanded
    ensures r.Done? ==> |r.state.flat| == |s.flat| + (if i <= hi then hi - i else 0)
    decreases hi - i
  {
    if hi <= i then Done(s)
    else
      match InsertRoot(s, i)
      case Failed(e) => Failed(e)
      case Done(t) => InsertRun(t, i + 1, hi)
  }

  // ---------------------------------------------------------------------
  // removal (TreeView.cs:144-158)

  /** One turn of the remove loop: an expanded item is collapsed first; then
      the entry and the line at the item's Position go, and every later entry
      moves up by one. The removed item keeps its Position and the disabled
      indexes are not touched. */
  ghost function RemoveRoot(s: TreeState, item: ItemId): (r: Outcome)
    requires Fields(s) && item in s.data
    ensures r.Failed? ==> r.failure == IndexOutOfRange
    ensures r.Done? ==> Fields(r.state) && r.state.data == s.data && r.state.roots == s.roots
    ensures r.Done? ==> r.state.level == s.level && r.state.expanded == s.expanded
  {
    if s.expanded[item] && !CollapseDefined(s, item) then Failed(IndexOutOfRange)
    else
      var t := if s.expanded[item] then (CollapseKeys(s, item); Collapse(s, item)) else s;
      var p := t.position[item];
      if !(0 <= p < |t.flat|) then Failed(IndexOutOfRange)
      else
        PositionKeys(t.position, t.flat[p + 1..], -1);
        Done(t.(flat := RemoveAt(t.flat, p),
                lines := RemoveAt(t.lines, p),
                position := Shift(t.position, t.flat[p + 1..], -1)))
  }

  /** The remove loop over the removed items, in order. */
  ghost function RemoveRun(s: TreeState, removed: seq<ItemId>): (r: Outcome)
    requires Fields(s) && forall x | x in removed :: x in s.data
    ensures r.Failed? ==> r.failure == IndexOutOfRange
    ensures r.Done? ==> Fields(r.state) && r.state.data == s.data && r.state.roots == s.roots
    ensures r.Done? ==> r.state.level == s.level && r.state.expanded == s.expanded
    decreases |removed|
  {
    if removed == [] then Done(s)
    else
      match RemoveRun(s, removed[..|removed| - 1])
      case Failed(e) => Failed(e)
      case Done(t) => RemoveRoot(t, removed[|removed| - 1])
  }

  // ---------------------------------------------------------------------
  // the handler (TreeView.cs:122-163)

  /** ItemsOnListChanged: insertions and removals of roots are handled, and
      any other kind of change throws NotSupportedException. */
  ghost function Handle(s: TreeState, change: ListChange): (r: Outcome)
    requires Fields(s)
    requires change.ItemsRemoved? ==> forall x | x in change.removed :: x in s.data
    ensures r == Failed(NotSupported) <==> change.OtherChange?
    ensures r.Done? ==> Fields(r.state) && r.state.data == s.data && r.state.roots == s.roots
  {
    match change
    case ItemsInserted(index, count) => InsertRun(s, index, if count < 0 then index else index + count)
    case ItemsRemoved(removed) => RemoveRun(s, removed)
    case OtherChange => Failed(NotSupported)
  }

  // ---------------------------------------------------------------------
  // what insertion and removal keep

  /** Inserting a hidden root whose previous sibling is visible keeps the
      projection invariant; the item goes in at the slot. */
  lemma InsertRootKeepsValid(s: TreeState, k: int)
    requires Valid(s) && 0 <= k < |s.roots|
    requires s.roots[k] !in s.flat
    requires k > 0 ==> s.roots[k - 1] in s.flat
    ensures InsertRoot(s, k).Done?
    ensures Valid(InsertRoot(s, k).state)
    ensures 0 <= InsertSlot(s, k) <= |s.flat|
    ensures InsertRoot(s, k).state.flat == InsertAt(s.flat, InsertSlot(s, k), s.roots[k])
  {
    var item := s.roots[k];
    var p := InsertSlot(s, k);
    if k > 0 {
      VisibleAt(s, s.roots[k - 1]);
    }
    assert item !in s.flat[p..];
    ShiftOut(s.position[item := p], s.flat[p..], 1, item);
    var r := InsertRoot(s, k).state;
    InsertIndexed(s.flat, s.position, item, p, r.flat, r.position);
  }

  /** Inserting a root keeps every line showing its entry. */
  lemma InsertRootKeepsShown(s: TreeState, k: int)
    requires Valid(s) && Shown(s) && 0 <= k < |s.roots|
    requires s.roots[k] !in s.flat
    requires k > 0 ==> s.roots[k - 1] in s.flat
    ensures InsertRoot(s, k).Done? && Shown(InsertRoot(s, k).state)
  {
    InsertRootKeepsValid(s, k);
    var r := InsertRoot(s, k).state;
    var p := InsertSlot(s, k);
    forall j | 0 <= j < |r.flat|
      ensures r.flat[j] in r.data && r.flat[j] in r.level && r.flat[j] in r.expanded
      ensures r.lines[j] == Title(r, r.flat[j])
    {
      InsertAtIndex(s.flat, p, s.roots[k], j);
      InsertAtIndex(s.lines, p, Title(s, s.roots[k]), j);
      if j < p {
        assert r.flat[j] == s.flat[j] && r.lines[j] == s.lines[j];
      } else if j > p {
        assert r.flat[j] == s.flat[j - 1] && r.lines[j] == s.lines[j - 1];
      }
    }
  }

  /** The inserted root lands in front of its previous sibling, which moves
      down by one. */
  lemma InsertLandsBeforePrevious(s: TreeState, k: int)
    requires Valid(s) && 0 < k < |s.roots|
    requires s.roots[k] !in s.flat && s.roots[k - 1] in s.flat
    ensures InsertRoot(s, k).Done?
    ensures var p := s.position[s.roots[k - 1]];
      && p + 1 < |InsertRoot(s, k).state.flat|
      && InsertRoot(s, k).state.flat[p] == s.roots[k]
      && InsertRoot(s, k).state.flat[p + 1] == s.roots[k - 1]
      && InsertRoot(s, k).state.position[s.roots[k - 1]] == p + 1
  {
    InsertRootKeepsValid(s, k);
    VisibleAt(s, s.roots[k - 1]);
  }

  /** The slot of the first root of a run is an index of the projection
      when the root before the run is visible. */
  lemma InsertSlotInRange(s: TreeState, lo: int)
    requires Valid(s) && 0 <= lo <= |s.roots|
    requires lo > 0 ==> s.roots[lo - 1] in s.flat
    ensures 0 <= InsertSlot(s, lo) <= |s.flat|
  {
    if lo > 0 {
      VisibleAt(s, s.roots[lo - 1]);
    }
  }

  /** When the root before index k is the entry at index p, the turn for
      the root at index k uses slot p. */
  lemma InsertSlotAfter(t: TreeState, k: int, p: int)
    requires Valid(t) && 0 < k < |t.roots| && 0 <= p < |t.flat|
    requires t.flat[p] == t.roots[k - 1]
    ensures t.roots[k - 1] in t.flat && InsertSlot(t, k) == p
  {
  }

  /** The insert run from i is one turn and then the run from i + 1, and
      the run over no roots changes nothing. */
  lemma InsertRunStep(t: TreeState, i: int, hi: int)
    requires Fields(t)
    ensures hi <= i ==> InsertRun(t, i, hi) == Done(t)
    ensures i < hi && InsertRoot(t, i).Done? ==>
      InsertRun(t, i, hi) == InsertRun(InsertRoot(t, i).state, i + 1, hi)
  {
  }

  /** The rest of the insert run from index i, on a state t holding the
      roots from lo up to i, last first, at slot p of the projection f it
      started from, puts the rest of the run in front of them. */
  lemma {:induction false} InsertRunRest(t: TreeState, rs: seq<ItemId>, lo: int, i: int, hi: int, f: seq<ItemId>, p: int)
    requires Valid(t) && t.roots == rs && 0 <= lo <= i <= hi <= |rs| && 0 <= p <= |f|
    requires NoDup(rs[lo..hi]) && forall y | y in rs[lo..hi] :: y !in f
    requires t.flat == Splice(f, p, RevRun(rs, lo, i))
    requires i == lo ==> InsertSlot(t, lo) == p && (lo > 0 ==> rs[lo - 1] in t.flat)
    ensures InsertRun(t, i, hi).Done? && Valid(InsertRun(t, i, hi).state)
    ensures InsertRun(t, i, hi).state.flat == Splice(f, p, RevRun(rs, lo, hi))
    decreases hi - i
  {
    InsertRunStep(t, i, hi);
    if i < hi {
      RevRunStep(rs, lo, i, hi, f, p);
      if i > lo {
        InsertSlotAfter(t, i, p);
      }
      InsertRootKeepsValid(t, i);
      InsertRunRest(InsertRoot(t, i).state, rs, lo, i + 1, hi, f, p);
    }
  }

  /** A run of hidden roots inserted after a visible one (or at the front)
      ends up reversed, in front of that previous root. */
  lemma InsertRunReversed(s: TreeState, lo: int, hi: int)
    requires Valid(s) && 0 <= lo <= hi <= |s.roots|
    requires NoDup(s.roots[lo..hi]) && forall x | x in s.roots[lo..hi] :: x !in s.flat
    requires lo > 0 ==> s.roots[lo - 1] in s.flat
    ensures InsertRun(s, lo, hi).Done?
    ensures Valid(InsertRun(s, lo, hi).state)
    ensures 0 <= InsertSlot(s, lo) <= |s.flat|
    ensures InsertRun(s, lo, hi).state.flat == Splice(s.flat, InsertSlot(s, lo), Reverse(s.roots[lo..hi]))
  {
    InsertSlotInRange(s, lo);
    SpliceNothing(s.flat, InsertSlot(s, lo));
    InsertRunRest(s, s.roots, lo, lo, hi, s.flat, InsertSlot(s, lo));
    RevRunIsReverse(s.roots, lo, hi);
  }

  /** The state a remove turn works on after collapsing an expanded root:
      still valid, with the root at its index and its children cut out. */
  ghost function Collapsed(s: TreeState, item: ItemId): TreeState
    requires Fields(s) && item in s.data
    requires s.expanded[item] ==> CollapseDefined(s, item)
  {
    if s.expanded[item] then Collapse(s, item) else s
  }

  /** The number of entries the collapse in a remove turn takes out. */
  function Hidden(s: TreeState, item: ItemId): nat
    requires item in s.data && item in s.expanded
  {
    if s.expanded[item] then |s.data[item].children| else 0
  }

  lemma CollapsePhase(s: TreeState, item: ItemId)
    requires Valid(s) && item in s.flat
    requires s.expanded[item] ==> CanCollapse(s, item)
    ensures var p := s.position[item];
      && 0 <= p && p + 1 + Hidden(s, item) <= |s.flat|
      && Valid(Collapsed(s, item))
      && Collapsed(s, item).flat == Cut(s.flat, p + 1, Hidden(s, item))
      && p < |Collapsed(s, item).flat| && Collapsed(s, item).flat[p] == item
      && Collapsed(s, item).position[item] == p
  {
    var p := s.position[item];
    VisibleAt(s, item);
    if s.expanded[item] {
      CollapseKeepsValid(s, item);
      CollapseParts(s, item);
      CutIndex(s.flat, p + 1, |s.data[item].children|, p);
    } else {
      CutNothing(s.flat, p + 1);
    }
  }

  /** Removing a visible root, expanded with its children right after it or
      collapsed, keeps the projection invariant: the root and its children
      leave the projection, and the root keeps its stale Position. */
  lemma RemoveRootKeepsValid(s: TreeState, item: ItemId)
    requires Valid(s) && item in s.flat
    requires s.expanded[item] ==> CanCollapse(s, item)
    ensures RemoveRoot(s, item).Done?
    ensures Valid(RemoveRoot(s, item).state)
    ensures 0 <= s.position[item] && s.position[item] + 1 + Hidden(s, item) <= |s.flat|
    ensures RemoveRoot(s, item).state.flat == Cut(s.flat, s.position[item], 1 + Hidden(s, item))
    ensures RemoveRoot(s, item).state.position[item] == s.position[item]
  {
    var p := s.position[item];
    CollapsePhase(s, item);
    var t := Collapsed(s, item);
    var r := RemoveRoot(s, item).state;
    RemoveIndexed(t.flat, t.position, p, r.flat, r.position);
    RemoveAtCut(s.flat, p, Hidden(s, item));
  }

  /** Removing a root keeps every line showing its entry. */
  lemma RemoveRootKeepsShown(s: TreeState, item: ItemId)
    requires Valid(s) && Shown(s) && item in s.flat
    requires s.expanded[item] ==> CanCollapse(s, item)
    ensures RemoveRoot(s, item).Done?
    ensures Shown(RemoveRoot(s, item).state)
  {
    RemoveRootKeepsValid(s, item);
    CollapsePhase(s, item);
    var t := Collapsed(s, item);
    if s.expanded[item] {
      CollapseKeepsShown(s, item);
    }
    var p := s.position[item];
    var r := RemoveRoot(s, item).state;
    forall j | 0 <= j < |r.flat|
      ensures r.flat[j] in r.data && r.flat[j] in r.level && r.flat[j] in r.expanded
      ensures r.lines[j] == Title(r, r.flat[j])
    {
      RemoveAtIndex(t.flat, p, j);
      RemoveAtIndex(t.lines, p, j);
    }
  }

  /** Removing a visible collapsed root takes exactly its entry out. */
  lemma RemoveCollapsedRoot(s: TreeState, item: ItemId)
    requires Valid(s) && item in s.flat && !s.expanded[item]
    ensures RemoveRoot(s, item).Done?
    ensures Valid(RemoveRoot(s, item).state)
    ensures multiset(RemoveRoot(s, item).state.flat) == multiset(s.flat) - multiset{item}
  {
    RemoveRootKeepsValid(s, item);
    var p := s.position[item];
    CutMultiset(s.flat, p, 1);
    assert s.flat[p..p + 1] == [item];
  }

  /** Removing distinct visible collapsed roots one after the other keeps the
      projection invariant and takes exactly those entries out. */
  lemma {:induction false} RemoveRunKeepsValid(s: TreeState, removed: seq<ItemId>)
    requires Valid(s) && NoDup(removed)
    requires forall x | x in removed :: x in s.flat && !s.expanded[x]
    ensures RemoveRun(s, removed).Done?
    ensures Valid(RemoveRun(s, removed).state)
    ensures multiset(RemoveRun(s, removed).state.flat) == multiset(s.flat) - multiset(removed)
    decreases |removed|
  {
    if removed != [] {
      var init := removed[..|removed| - 1];
      var last := removed[|removed| - 1];
      assert forall x | x in init :: x in removed;
      RemoveRunKeepsValid(s, init);
      var t := RemoveRun(s, init).state;
      assert last in s.flat && last !in init;
      assert multiset(t.flat)[last] == multiset(s.flat)[last];
      RemoveCollapsedRoot(t, last);
      assert RemoveRun(s, removed) == RemoveRoot(t, last);
      SplitLast(removed);
      assert multiset(removed) == multiset(init) + multiset{last};
      MinusStep(multiset(s.flat), multiset(init), last);
    }
  }
}
