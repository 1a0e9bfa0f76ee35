/** expandCollapse (ConsoleFramework/Controls/TreeView.cs:197-220) as a
    function from the state before to the state after, with its two branches,
    and the round trip of two successive calls. */
module ExpandCollapse {
  import opened Seqs
  import opened TreeItems
  import opened TreeProjection
  import opened TreeToggle

  /** `item.Expanded = b` followed by `listBox.Items[index] =
      item.GetDisplayTitle()`. */
  ghost function SetFlag(s: TreeState, item: ItemId, index: int, b: bool): TreeState
    requires item in s.data && item in s.level && 0 <= index < |s.lines|
  {
    s.(expanded := s.expanded[item := b],
       lines := s.lines[index := DisplayTitle(s.data[item], s.level[item], b)])
  }

  /** What the item shows below itself while expanded: each child followed
      by the children it shows. */
  ghost function Below(s: TreeState, item: ItemId): seq<ItemId>
    requires Valid(s) && item in s.data
  {
    Blocks(s.data, s.expanded, s.data[item].children)
  }

  /** expandCollapse may run on `item`: it is visible, and
      - when its flag is set, what it shows follows it in the projection;
      - when its flag is clear, what it is to show is distinct and hidden. */
  ghost predicate CanToggle(s: TreeState, item: ItemId) {
    && Valid(s) && item in s.data
    && 0 <= s.position[item] < |s.flat| && s.flat[s.position[item]] == item
    && (s.expanded[item] ==>
          && s.position[item] + 1 + |Below(s, item)| <= |s.flat|
          && s.flat[s.position[item] + 1..s.position[item] + 1 + |Below(s, item)|] == Below(s, item))
    && (!s.expanded[item] ==>
          && NoDup(Below(s, item))
          && forall x | x in Below(s, item) :: x !in s.flat)
  }

  /** Setting the flag and the item's line keeps the projection invariant. */
  lemma SetFlagKeepsValid(s: TreeState, item: ItemId, index: int, b: bool)
    requires Valid(s) && item in s.data && 0 <= index < |s.lines|
    ensures Valid(SetFlag(s, item, index, b))
  {
  }

  /** ... and, when the item sits at `index`, every line still shows its entry. */
  lemma SetFlagKeepsShown(s: TreeState, item: ItemId, index: int, b: bool)
    requires Valid(s) && Shown(s) && item in s.data && 0 <= index < |s.flat| && s.flat[index] == item
    ensures Shown(SetFlag(s, item, index, b))
  {
    var r := SetFlag(s, item, index, b);
    forall k | 0 <= k < |r.flat| ensures r.lines[k] == Title(r, r.flat[k]) {
      if k != index {
        assert s.position[s.flat[k]] == k;
      }
    }
  }

  // ---------------------------------------------------------------------
  // The expanding branch.

  /** expand may run on the item, whose children are not among them. */
  lemma ExpandItemReady(s: TreeState, item: ItemId)
    requires CanToggle(s, item) && !s.expanded[item]
    ensures CanExpand(s, item) && item !in s.data[item].children
  {
    var cs := s.data[item].children;
    BlocksNoDup(s.data, s.expanded, cs);
    forall c | c in cs ensures c !in s.flat {
      InBlocks(s.data, s.expanded, cs, c);
    }
  }

  /** Blocks and AllKids of the children do not read the item's own flag. */
  lemma FlagFrame(s: TreeState, item: ItemId, e: map<ItemId, bool>, b: bool)
    requires Valid(s) && item in s.data && item !in s.data[item].children
    requires e == s.expanded[item := b]
    ensures Closed(s.data, e)
    ensures Blocks(s.data, e, s.data[item].children) == Below(s, item)
    ensures AllKids(s.data, e, s.data[item].children) == AllKids(s.data, s.expanded, s.data[item].children)
  {
    BlocksFrame(s.data, s.expanded, e, s.data[item].children);
  }

  /** The shown grandchildren are not in the projection after expand(item). */
  lemma KidsStillHidden(s: TreeState, item: ItemId, xflat: seq<ItemId>)
    requires Valid(s) && item in s.data && 0 <= s.position[item] < |s.flat|
    requires NoDup(Below(s, item)) && forall x | x in Below(s, item) :: x !in s.flat
    requires xflat == Splice(s.flat, s.position[item] + 1, s.data[item].children)
    ensures forall y | y in AllKids(s.data, s.expanded, s.data[item].children) :: y !in xflat
  {
    var cs := s.data[item].children;
    BlocksNoDup(s.data, s.expanded, cs);
    forall y | y in AllKids(s.data, s.expanded, cs) ensures y !in xflat {
      InBlocks(s.data, s.expanded, cs, y);
      InSplice(s.flat, s.position[item] + 1, cs, y);
    }
  }

  /** After expand(item) and the flag, the children's loop may run: the
      children sit between the entries up to the item and the rest. */
  lemma ExpandBranchReady(s: TreeState, item: ItemId, x: TreeState, pre: seq<ItemId>, post: seq<ItemId>)
    requires CanExpand(s, item) && item !in s.data[item].children
    requires NoDup(Below(s, item)) && forall x | x in Below(s, item) :: x !in s.flat
    requires Valid(x) && x.data == s.data && x.expanded == s.expanded[item := true]
    requires x.flat == Splice(s.flat, s.position[item] + 1, s.data[item].children)
    requires pre == s.flat[..s.position[item] + 1] && post == s.flat[s.position[item] + 1..]
    ensures ChildrenExpandable(x, pre, s.data[item].children, post)
  {
    ReadyHidden(s, item, x);
  }

  /** ... and what the children are to show is distinct and hidden. */
  lemma ReadyHidden(s: TreeState, item: ItemId, x: TreeState)
    requires CanExpand(s, item) && item !in s.data[item].children
    requires NoDup(Below(s, item)) && forall x | x in Below(s, item) :: x !in s.flat
    requires x.data == s.data && x.expanded == s.expanded[item := true]
    requires x.flat == Splice(s.flat, s.position[item] + 1, s.data[item].children)
    ensures Closed(x.data, x.expanded)
    ensures NoDup(Blocks(x.data, x.expanded, x.data[item].children))
    ensures forall y | y in AllKids(x.data, x.expanded, x.data[item].children) :: y !in x.flat
  {
    FlagFrame(s, item, x.expanded, true);
    KidsStillHidden(s, item, x.flat);
  }

  /** The projection invariant holds when the children's loop starts. */
  lemma ReadyValid(s: TreeState, item: ItemId, x: TreeState)
    requires CanExpand(s, item)
    requires x == SetFlag(Expand(s, item), item, s.position[item], true)
    ensures Valid(x)
  {
    ExpandKeepsValid(s, item);
    SetFlagKeepsValid(Expand(s, item), item, s.position[item], true);
  }

  /** When the children's loop starts the items and the list are expand's,
      and only the item's flag has changed. */
  lemma ReadyFields(s: TreeState, item: ItemId, x: TreeState)
    requires CanExpand(s, item)
    requires x == SetFlag(Expand(s, item), item, s.position[item], true)
    ensures x.data == s.data && x.expanded == s.expanded[item := true]
    ensures x.flat == Splice(s.flat, s.position[item] + 1, s.data[item].children)
  {
  }

  /** After expand(item), the flag and the item's line, the children's loop
      may start. */
  lemma FlaggedExpandable(s: TreeState, item: ItemId, x: TreeState, pre: seq<ItemId>, post: seq<ItemId>)
    requires CanToggle(s, item) && !s.expanded[item]
    requires x == SetFlag(Expand(s, item), item, s.position[item], true)
    requires pre == s.flat[..s.position[item] + 1] && post == s.flat[s.position[item] + 1..]
    ensures CanExpand(s, item)
    ensures ChildrenExpandable(x, pre, s.data[item].children, post)
  {
    ExpandItemReady(s, item);
    ReadyValid(s, item, x);
    ReadyFields(s, item, x);
    ExpandBranchReady(s, item, x, pre, post);
  }

  /** The expanding branch: expand(item), set the flag and the item's line,
      then expand(child) for each child whose flag is set. The item then
      shows its Blocks right after itself, only its own flag changes, no
      entry shown before changes Level, and nothing hidden moves. */
  ghost function ExpandBranch(s: TreeState, item: ItemId): (r: TreeState)
    requires CanToggle(s, item) && !s.expanded[item]
    ensures Valid(r)
    ensures r.data == s.data && r.roots == s.roots
    ensures r.expanded == s.expanded[item := true]
    ensures r.flat == Splice(s.flat, s.position[item] + 1, Below(s, item))
    ensures r.position[item] == s.position[item]
    ensures forall id | id in s.flat :: id in r.level && r.level[id] == s.level[id]
    ensures forall id | id in s.position && id !in r.flat :: r.position[id] == s.position[id]
    ensures Shown(s) ==> Shown(r)
  {
    var idx, cs := s.position[item], s.data[item].children;
    var pre, post := s.flat[..idx + 1], s.flat[idx + 1..];
    var x := SetFlag(Expand(s, item), item, idx, true);
    FlaggedExpandable(s, item, x, pre, post);
    var r := ExpandChildren(x, pre, cs, post);
    ExpandBranchFrame(s, item, x, pre, post, r);
    ExpandBranchKept(s, item, x, pre, post, r);
    ExpandBranchShown(s, item, x, pre, post, r);
    r
  }

  /** The expanding branch shows the children one level below the item and
      the children they show two levels below it. */
  lemma ExpandBranchDeepens(s: TreeState, item: ItemId)
    requires CanToggle(s, item) && !s.expanded[item]
    ensures forall c | c in s.data[item].children ::
      c in ExpandBranch(s, item).level && ExpandBranch(s, item).level[c] == s.level[item] + 1
    ensures forall c, g | c in s.data[item].children && s.expanded[c] && g in s.data[c].children ::
      g in ExpandBranch(s, item).level && ExpandBranch(s, item).level[g] == s.level[item] + 2
  {
    var idx, cs := s.position[item], s.data[item].children;
    var pre, post := s.flat[..idx + 1], s.flat[idx + 1..];
    var x := SetFlag(Expand(s, item), item, idx, true);
    FlaggedExpandable(s, item, x, pre, post);
    ExpandBranchIs(s, item, x, pre, post);
    ExpandBranchDepths(s, item, x, pre, post, ExpandBranch(s, item), cs, s.level[item] + 1);
  }

  /** The expanding branch as expand(item), the flag and the loop. */
  lemma ExpandBranchIs(s: TreeState, item: ItemId, x: TreeState, pre: seq<ItemId>, post: seq<ItemId>)
    requires CanToggle(s, item) && !s.expanded[item]
    requires CanExpand(s, item) && x == SetFlag(Expand(s, item), item, s.position[item], true)
    requires pre == s.flat[..s.position[item] + 1] && post == s.flat[s.position[item] + 1..]
    requires ChildrenExpandable(x, pre, s.data[item].children, post)
    ensures ExpandBranch(s, item) == ExpandChildren(x, pre, s.data[item].children, post)
  {
    var r := ExpandBranch(s, item);
    assert r == ExpandChildren(SetFlag(Expand(s, item), item, s.position[item], true),
                               s.flat[..s.position[item] + 1], s.data[item].children, s.flat[s.position[item] + 1..]);
  }

  /** The expanding branch puts the children one level below the item and
      the children they show two levels below it. */
  lemma ExpandBranchDepths(s: TreeState, item: ItemId, x: TreeState, pre: seq<ItemId>, post: seq<ItemId>,
                           r: TreeState, cs: seq<ItemId>, lvl: nat)
    requires CanToggle(s, item) && !s.expanded[item]
    requires cs == s.data[item].children && lvl == s.level[item] + 1
    requires x == SetFlag(Expand(s, item), item, s.position[item], true)
    requires pre == s.flat[..s.position[item] + 1] && post == s.flat[s.position[item] + 1..]
    requires ChildrenExpandable(x, pre, cs, post)
    requires r == ExpandChildren(x, pre, cs, post)
    ensures forall c | c in s.data[item].children :: c in r.level && r.level[c] == s.level[item] + 1
    ensures forall c, g | c in s.data[item].children && s.expanded[c] && g in s.data[c].children ::
      g in r.level && r.level[g] == s.level[item] + 2
  {
    ExpandItemReady(s, item);
    var w := Expand(s, item);
    ExpandLines(s, item, w, s.position[item], cs, lvl);
    DepthsAfter(s, item, x, pre, post, r, cs, lvl, w.level);
  }

  /** ExpandBranchDepths, with the Level map expand(item) leaves known. */
  lemma DepthsAfter(s: TreeState, item: ItemId, x: TreeState, pre: seq<ItemId>, post: seq<ItemId>,
                    r: TreeState, cs: seq<ItemId>, lvl: nat, wl: map<ItemId, nat>)
    requires Valid(s) && item in s.data && cs == s.data[item].children && item !in cs
    requires wl == Deepen(s.level, cs, lvl) && x.level == wl
    requires x.data == s.data && x.expanded == s.expanded[item := true]
    requires ChildrenExpandable(x, pre, cs, post)
    requires Valid(r) && ExpandedShape(x, pre, cs, post, r)
    requires r == ExpandChildren(x, pre, cs, post)
    ensures forall c | c in cs :: c in r.level && r.level[c] == lvl
    ensures forall c, g | c in cs && s.expanded[c] && g in s.data[c].children :: g in r.level && r.level[g] == lvl + 1
  {
    ExpandChildrenLevels(x, pre, cs, post, r);
    forall c | c in cs ensures c in r.level && r.level[c] == lvl {
      assert c in x.flat;
    }
    forall c, g | c in cs && s.expanded[c] && g in s.data[c].children ensures g in r.level && r.level[g] == lvl + 1 {
      assert g in Kids(x.data, x.expanded, c);
    }
  }

  /** What the children's loop leaves, as field equations. */
  lemma ExpandChildrenFlat(t: TreeState, pre: seq<ItemId>, cs: seq<ItemId>, post: seq<ItemId>, r: TreeState)
    requires ChildrenExpandable(t, pre, cs, post) && r == ExpandChildren(t, pre, cs, post)
    ensures Valid(r) && r.data == t.data && r.roots == t.roots && r.expanded == t.expanded
    ensures r.flat == pre + Blocks(t.data, t.expanded, cs) + post
  {
  }

  /** After expand(item) and the flag, the children's Blocks are what the
      item is to show. */
  lemma FlaggedBlocks(s: TreeState, item: ItemId, x: TreeState)
    requires CanToggle(s, item) && !s.expanded[item]
    requires x == SetFlag(Expand(s, item), item, s.position[item], true)
    ensures x.data == s.data && x.expanded == s.expanded[item := true]
    ensures Blocks(x.data, x.expanded, s.data[item].children) == Below(s, item)
  {
    ExpandItemReady(s, item);
    ReadyFields(s, item, x);
    FlagFrame(s, item, x.expanded, true);
  }

  /** The expanding branch changes only the item's flag and puts the item's
      Blocks after it. */
  lemma ExpandBranchFrame(s: TreeState, item: ItemId, x: TreeState, pre: seq<ItemId>, post: seq<ItemId>, r: TreeState)
    requires CanToggle(s, item) && !s.expanded[item]
    requires x == SetFlag(Expand(s, item), item, s.position[item], true)
    requires pre == s.flat[..s.position[item] + 1] && post == s.flat[s.position[item] + 1..]
    requires ChildrenExpandable(x, pre, s.data[item].children, post)
    requires r == ExpandChildren(x, pre, s.data[item].children, post)
    ensures Valid(r) && r.data == s.data && r.roots == s.roots
    ensures r.expanded == s.expanded[item := true]
    ensures r.flat == Splice(s.flat, s.position[item] + 1, Below(s, item))
    ensures r.position[item] == s.position[item]
  {
    FlaggedBlocks(s, item, x);
    ExpandChildrenFlat(x, pre, s.data[item].children, post, r);
    PrefixAt(r.flat, pre, Below(s, item), post, s.position[item]);
  }

  /** The expanding branch changes no shown item's Level and moves no hidden
      item. */
  lemma ExpandBranchKept(s: TreeState, item: ItemId, x: TreeState, pre: seq<ItemId>, post: seq<ItemId>, r: TreeState)
    requires CanToggle(s, item) && !s.expanded[item]
    requires x == SetFlag(Expand(s, item), item, s.position[item], true)
    requires pre == s.flat[..s.position[item] + 1] && post == s.flat[s.position[item] + 1..]
    requires ChildrenExpandable(x, pre, s.data[item].children, post)
    requires r == ExpandChildren(x, pre, s.data[item].children, post)
    ensures forall id | id in s.flat :: id in r.level && r.level[id] == s.level[id]
    ensures forall id | id in s.position && id !in r.flat :: r.position[id] == s.position[id]
  {
    ExpandItemReady(s, item);
    var w := Expand(s, item);
    FlagFrame(s, item, x.expanded, true);
    ExpandBranchLevels(s, item, w, x, r);
    ExpandBranchHidden(s, item, w, x, r);
  }

  /** Every line that showed its entry still does after the expanding
      branch. */
  lemma ExpandBranchShown(s: TreeState, item: ItemId, x: TreeState, pre: seq<ItemId>, post: seq<ItemId>, r: TreeState)
    requires CanToggle(s, item) && !s.expanded[item]
    requires x == SetFlag(Expand(s, item), item, s.position[item], true)
    requires pre == s.flat[..s.position[item] + 1] && post == s.flat[s.position[item] + 1..]
    requires ChildrenExpandable(x, pre, s.data[item].children, post)
    requires r == ExpandChildren(x, pre, s.data[item].children, post)
    ensures Shown(s) ==> Shown(r)
  {
    ExpandItemReady(s, item);
    var w := Expand(s, item);
    ExpandBranchLines(s, item, w, x, pre, post);
  }

  /** Every line still shows its entry after the expanding branch. */
  lemma ExpandBranchLines(s: TreeState, item: ItemId, w: TreeState, x: TreeState, pre: seq<ItemId>, post: seq<ItemId>)
    requires CanExpand(s, item) && item !in s.data[item].children
    requires w == Expand(s, item) && x == SetFlag(w, item, s.position[item], true)
    requires pre == s.flat[..s.position[item] + 1] && post == s.flat[s.position[item] + 1..]
    requires ChildrenExpandable(x, pre, s.data[item].children, post)
    ensures Shown(s) ==> Shown(ExpandChildren(x, pre, s.data[item].children, post))
  {
    if Shown(s) {
      var idx, cs := s.position[item], s.data[item].children;
      ExpandKeepsValid(s, item);
      ExpandKeepsShown(s, item);
      PrefixAt(w.flat, pre, cs, post, idx);
      SetFlagKeepsShown(w, item, idx, true);
      ExpandChildrenShown(x, pre, cs, post);
    }
  }

  /** No entry shown before the expanding branch changes Level. */
  lemma ExpandBranchLevels(s: TreeState, item: ItemId, w: TreeState, x: TreeState, r: TreeState)
    requires CanExpand(s, item)
    requires w == Expand(s, item) && x == SetFlag(w, item, s.position[item], true)
    requires r.level.Keys == x.level.Keys && x.flat == Splice(s.flat, s.position[item] + 1, s.data[item].children)
    requires forall id | id in x.flat && id in x.level :: r.level[id] == x.level[id]
    ensures forall id | id in s.flat :: id in r.level && r.level[id] == s.level[id]
  {
    forall id | id in s.flat ensures id in r.level && r.level[id] == s.level[id] {
      InSplice(s.flat, s.position[item] + 1, s.data[item].children, id);
    }
  }

  /** Nothing hidden after the expanding branch moved. */
  lemma ExpandBranchHidden(s: TreeState, item: ItemId, w: TreeState, x: TreeState, r: TreeState)
    requires CanExpand(s, item)
    requires w == Expand(s, item) && x == SetFlag(w, item, s.position[item], true)
    requires Closed(x.data, x.expanded) && forall c | c in s.data[item].children :: c in s.data
    requires r.position.Keys == x.position.Keys
    requires multiset(r.flat) == multiset(x.flat) + multiset(AllKids(x.data, x.expanded, s.data[item].children))
    requires forall id | id in x.position && id !in r.flat :: r.position[id] == x.position[id]
    ensures forall id | id in s.position && id !in r.flat :: r.position[id] == s.position[id]
  {
    ExpandFrames(s, item);
    forall id | id in s.position && id !in r.flat ensures r.position[id] == s.position[id] {
      InSum(r.flat, x.flat, AllKids(x.data, x.expanded, s.data[item].children), id);
    }
  }

  // ---------------------------------------------------------------------
  // The collapsing branch.

  /** The children's loop may run: what the item shows lies between the
      entries up to the item and the rest. */
  lemma CollapseBranchReady(s: TreeState, item: ItemId)
    requires CanToggle(s, item) && s.expanded[item]
    ensures BlocksBetween(s, s.flat[..s.position[item] + 1], s.data[item].children,
                          s.flat[s.position[item] + 1 + |Below(s, item)|..])
  {
    SliceSplit(s.flat, s.position[item] + 1, Below(s, item));
  }

  /** After the children's loop the children follow the item, so collapse
      may run on it. */
  lemma CollapseItemReady(s: TreeState, item: ItemId, pre: seq<ItemId>, post: seq<ItemId>, u: TreeState)
    requires CanToggle(s, item) && s.expanded[item]
    requires pre == s.flat[..s.position[item] + 1]
    requires Valid(u) && CollapsedShape(s, pre, s.data[item].children, post, u)
    ensures CanCollapse(u, item) && u.position[item] == s.position[item]
  {
    var idx, cs := s.position[item], s.data[item].children;
    assert u.flat[idx] == item;
    assert u.flat[idx + 1..idx + 1 + |cs|] == cs;
  }

  /** The collapsing branch: collapse(child) for each child whose flag is
      set, then collapse(item), then set the flag and the item's line. What
      the item showed leaves the projection with Position -1, only its own
      flag changes, no Level changes, and nothing else hidden moves. */
  ghost function CollapseBranch(s: TreeState, item: ItemId): (r: TreeState)
    requires CanToggle(s, item) && s.expanded[item]
    ensures Valid(r)
    ensures r.data == s.data && r.roots == s.roots && r.level == s.level
    ensures r.expanded == s.expanded[item := false]
    ensures r.flat == Cut(s.flat, s.position[item] + 1, |Below(s, item)|)
    ensures 0 <= s.position[item] < |r.flat| && r.flat[s.position[item]] == item
    ensures r.position[item] == s.position[item]
    ensures forall x | x in Below(s, item) :: x in r.position && r.position[x] == -1
    ensures forall id | id in s.position && id !in s.flat :: r.position[id] == s.position[id]
  {
    var idx, cs := s.position[item], s.data[item].children;
    var pre, post := s.flat[..idx + 1], s.flat[idx + 1 + |Below(s, item)|..];
    CollapseBranchReady(s, item);
    var u := CollapseChildren(s, pre, cs, post);
    CollapseItemReady(s, item, pre, post, u);
    var v := Collapse(u, item);
    CollapseKeepsValid(u, item);
    ValidNoDup(u);
    CollapseStepFacts(u, item, idx + 1, cs);
    CutMiddle(pre, cs, post);
    HeadAt(v.flat, pre, post, idx);
    ValidNoDup(s);
    InBlocksAll(s.data, s.expanded, cs);
    CollapseBranchPositions(s.flat, u.flat, s.position, u.position, v.position, cs,
                            AllKids(s.data, s.expanded, cs), Below(s, item));
    SetFlagKeepsValid(v, item, idx, false);
    SetFlag(v, item, idx, false)
  }

  /** Positions after the collapsing branch: what the item showed has -1,
      and what was hidden before is untouched. */
  lemma CollapseBranchPositions(sf: seq<ItemId>, uf: seq<ItemId>, sp: map<ItemId, int>, up: map<ItemId, int>,
                                vp: map<ItemId, int>, cs: seq<ItemId>, ak: seq<ItemId>, b: seq<ItemId>)
    requires NoDup(sf) && multiset(uf) + multiset(ak) == multiset(sf)
    requires forall x | x in b :: x in cs || x in ak
    requires up.Keys == sp.Keys && vp.Keys == up.Keys
    requires forall x | x in ak :: x in up && up[x] == -1
    requires forall x | x in cs :: x in vp && vp[x] == -1
    requires forall id | id in sp && id !in sf :: up[id] == sp[id]
    requires forall id | id in up && id !in uf :: vp[id] == up[id]
    ensures forall x | x in b :: x in vp && vp[x] == -1
    ensures forall id | id in sp && id !in sf :: vp[id] == sp[id]
  {
    forall x | x in b && x !in cs ensures x in vp && vp[x] == -1 {
      CountedOut(sf, uf, ak, x);
    }
    forall id | id in sp && id !in sf ensures vp[id] == sp[id] {
      InSum(sf, uf, ak, id);
    }
  }

  // ---------------------------------------------------------------------
  // expandCollapse and its round trip.

  /** expandCollapse(item): the collapsing branch when the item's flag is
      set, the expanding branch otherwise. Either way the flag flips, only
      that flag changes and the item keeps its index. */
  ghost function Toggle(s: TreeState, item: ItemId): (r: TreeState)
    requires CanToggle(s, item)
    ensures Valid(r) && r.data == s.data && r.roots == s.roots
    ensures r.expanded == s.expanded[item := !s.expanded[item]]
    ensures r.position[item] == s.position[item]
  {
    if s.expanded[item] then CollapseBranch(s, item) else ExpandBranch(s, item)
  }

  /** Toggling an expanded item is the collapsing branch. */
  lemma ToggleCollapses(s: TreeState, item: ItemId)
    requires CanToggle(s, item) && s.expanded[item]
    ensures Toggle(s, item) == CollapseBranch(s, item)
  {
  }

  /** Every line still shows its entry after collapse(item) and the flag. */
  lemma CollapseOwnShown(u: TreeState, item: ItemId, idx: int)
    requires CanCollapse(u, item) && Shown(u) && idx == u.position[item]
    ensures Shown(SetFlag(Collapse(u, item), item, idx, false))
  {
    CollapseKeepsValid(u, item);
    CollapseKeepsShown(u, item);
    CutIndex(u.flat, idx + 1, |u.data[item].children|, idx);
    SetFlagKeepsShown(Collapse(u, item), item, idx, false);
  }

  /** Every line still shows its entry after the collapsing branch. */
  lemma CollapseBranchShown(s: TreeState, item: ItemId)
    requires CanToggle(s, item) && s.expanded[item] && Shown(s)
    ensures Shown(CollapseBranch(s, item))
  {
    var idx, cs := s.position[item], s.data[item].children;
    var pre, post := s.flat[..idx + 1], s.flat[idx + 1 + |Below(s, item)|..];
    CollapseBranchReady(s, item);
    var u := CollapseChildren(s, pre, cs, post);
    CollapseChildrenShown(s, pre, cs, post);
    CollapseItemReady(s, item, pre, post, u);
    CollapseOwnShown(u, item, idx);
  }

  /** expandCollapse keeps every line of the list box showing the
      GetDisplayTitle of the entry at its index. */
  lemma ToggleKeepsShown(s: TreeState, item: ItemId)
    requires CanToggle(s, item) && Shown(s)
    ensures Shown(Toggle(s, item))
  {
    if s.expanded[item] {
      CollapseBranchShown(s, item);
    }
  }

  /** After the expanding branch the item shows the same entries below
      itself, right after itself, so expandCollapse may run again. */
  lemma ExpandedCanToggle(s: TreeState, item: ItemId)
    requires CanToggle(s, item) && !s.expanded[item]
    ensures CanToggle(ExpandBranch(s, item), item) && ExpandBranch(s, item).expanded[item]
    ensures Below(ExpandBranch(s, item), item) == Below(s, item)
  {
    var r := ExpandBranch(s, item);
    var idx := s.position[item];
    ExpandItemReady(s, item);
    FlagFrame(s, item, r.expanded, true);
    ThreeParts(r.flat, s.flat[..idx + 1], Below(s, item), s.flat[idx + 1..],
               r.position[item] + 1, r.position[item] + 1 + |Below(r, item)|);
  }

  /** The projection after expanding and collapsing again is the one before:
      r1 is the state the expanding branch leaves. */
  lemma ToggleTwiceFlat(s: TreeState, item: ItemId, r1: TreeState)
    requires CanToggle(s, item) && !s.expanded[item]
    requires CanToggle(r1, item) && r1.expanded[item]
    requires r1.flat == Splice(s.flat, s.position[item] + 1, Below(s, item))
    requires r1.position[item] == s.position[item] && Below(r1, item) == Below(s, item)
    ensures CollapseBranch(r1, item).flat == s.flat
  {
    CutUndoesSplice(s.flat, s.position[item] + 1, Below(s, item), s.position[item] + 1, |Below(s, item)|);
  }

  /** Two successive expandCollapse calls on a collapsed item whose entries
      to show are hidden restore the projection, every Expanded flag, the
      Level of every shown entry and every line of the list box; every
      Position is restored except that the entries shown in between now
      cache -1. */
  lemma ToggleTwiceRestores(s: TreeState, item: ItemId)
    requires CanToggle(s, item) && !s.expanded[item]
    ensures CanToggle(Toggle(s, item), item)
    ensures Toggle(Toggle(s, item), item).flat == s.flat
    ensures Toggle(Toggle(s, item), item).expanded == s.expanded
    ensures Toggle(Toggle(s, item), item).data == s.data && Toggle(Toggle(s, item), item).roots == s.roots
    ensures forall id | id in s.flat :: Toggle(Toggle(s, item), item).level[id] == s.level[id]
    ensures forall id | id in s.position ::
      Toggle(Toggle(s, item), item).position[id] == if id in Below(s, item) then -1 else s.position[id]
    ensures Shown(s) ==> Toggle(Toggle(s, item), item).lines == s.lines
  {
    ExpandedCanToggle(s, item);
    ExpandThenCollapse(s, item);
  }

  /** When the entries the item is to show cache -1, as collapse leaves
      them, two successive expandCollapse calls restore every Position. */
  lemma ToggleTwiceKeepsPositions(s: TreeState, item: ItemId)
    requires CanToggle(s, item) && !s.expanded[item]
    requires forall x | x in Below(s, item) :: x in s.position && s.position[x] == -1
    ensures CanToggle(Toggle(s, item), item)
    ensures Toggle(Toggle(s, item), item).position == s.position
  {
    ToggleTwiceRestores(s, item);
    PositionsBack(s.position, Toggle(Toggle(s, item), item).position, Below(s, item));
  }

  /** Positions that differ only where the old map already holds -1 agree. */
  lemma PositionsBack(sp: map<ItemId, int>, rp: map<ItemId, int>, b: seq<ItemId>)
    requires rp.Keys == sp.Keys
    requires forall id | id in sp :: rp[id] == if id in b then -1 else sp[id]
    requires forall x | x in b :: x in sp && sp[x] == -1
    ensures rp == sp
  {
  }

  /** The same, for the expanding branch followed by the collapsing one. */
  lemma ExpandThenCollapse(s: TreeState, item: ItemId)
    requires CanToggle(s, item) && !s.expanded[item]
    requires CanToggle(ExpandBranch(s, item), item) && ExpandBranch(s, item).expanded[item]
    ensures CollapseBranch(ExpandBranch(s, item), item).flat == s.flat
    ensures CollapseBranch(ExpandBranch(s, item), item).expanded == s.expanded
    ensures forall id | id in s.flat :: CollapseBranch(ExpandBranch(s, item), item).level[id] == s.level[id]
    ensures forall id | id in s.position ::
      CollapseBranch(ExpandBranch(s, item), item).position[id] == if id in Below(s, item) then -1 else s.position[id]
    ensures Shown(s) ==> CollapseBranch(ExpandBranch(s, item), item).lines == s.lines
  {
    ExpandedCanToggle(s, item);
    var r1 := ExpandBranch(s, item);
    var r2 := CollapseBranch(r1, item);
    ToggleTwiceFlat(s, item, r1);
    FlagBack(s.expanded, item);
    ToggleTwicePositions(s, item, r1, r2);
    if Shown(s) {
      CollapseBranchShown(r1, item);
      TwiceLines(s, r2);
    }
  }

  /** Setting a clear flag and clearing it again changes nothing. */
  lemma FlagBack(e: map<ItemId, bool>, item: ItemId)
    requires item in e && !e[item]
    ensures e[item := true][item := false] == e
  {
  }

  /** Positions after two successive expandCollapse calls. */
  lemma ToggleTwicePositions(s: TreeState, item: ItemId, r1: TreeState, r2: TreeState)
    requires CanToggle(s, item) && !s.expanded[item]
    requires r1 == ExpandBranch(s, item) && CanToggle(r1, item) && r1.expanded[item]
    requires Below(r1, item) == Below(s, item)
    requires r2 == CollapseBranch(r1, item) && r2.flat == s.flat
    ensures forall id | id in s.position :: r2.position[id] == if id in Below(s, item) then -1 else s.position[id]
  {
    SamePositions(s, r2);
    InsertMembers(s.flat, r1.flat, Below(s, item), s.position[item] + 1);
    TwicePositions(s.flat, r1.flat, s.position, r1.position, r2.position, Below(s, item));
  }

  /** Two states with the same projection cache the same Position for every
      shown entry. */
  lemma SamePositions(s: TreeState, r: TreeState)
    requires Valid(s) && Valid(r) && r.flat == s.flat
    ensures forall id | id in s.flat :: id in s.position && id in r.position && r.position[id] == s.position[id]
  {
    forall id | id in s.flat ensures id in s.position && id in r.position && r.position[id] == s.position[id] {
      var k :| 0 <= k < |s.flat| && s.flat[k] == id;
    }
  }

  /** Positions after two successive expandCollapse calls, over the
      projections `sf` before and `r1f` in between and the Position maps
      before, in between and after. */
  lemma TwicePositions(sf: seq<ItemId>, r1f: seq<ItemId>, sp: map<ItemId, int>, r1p: map<ItemId, int>,
                       r2p: map<ItemId, int>, b: seq<ItemId>)
    requires r1p.Keys == sp.Keys && r2p.Keys == sp.Keys
    requires forall x | x in b :: x !in sf
    requires forall x | x in r1f :: x in sf || x in b
    requires forall id | id in sf :: id in sp && id in r2p && r2p[id] == sp[id]
    requires forall id | id in sp && id !in r1f :: r1p[id] == sp[id]
    requires forall x | x in b :: x in r2p && r2p[x] == -1
    requires forall id | id in r1p && id !in r1f :: r2p[id] == r1p[id]
    ensures forall id | id in sp :: r2p[id] == if id in b then -1 else sp[id]
  {
  }

  /** Lines of two states with the same projection, Expanded flags and
      Levels of shown entries, both showing their entries, agree. */
  lemma TwiceLines(s: TreeState, r: TreeState)
    requires Shown(s) && Shown(r) && r.flat == s.flat && r.data == s.data && r.expanded == s.expanded
    requires forall id | id in s.flat :: id in r.level && r.level[id] == s.level[id]
    ensures r.lines == s.lines
  {
    forall k | 0 <= k < |s.lines| ensures r.lines[k] == s.lines[k] {
      assert s.flat[k] in s.flat;
    }
  }
}
