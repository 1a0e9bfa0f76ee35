/** expandCollapse (ConsoleFramework/Controls/TreeView.cs:197-220): the item
    is expanded or collapsed together with those of its direct children whose
    Expanded flag is set. The loops over the children are given as folds
    (ExpandChildren, CollapseChildren) whose closed forms are part of their
    contracts. */
module TreeToggle {
  import opened Seqs
  import opened TreeItems
  import opened TreeProjection

  /** Every item has an Expanded field and its children are items too. */
  ghost predicate Closed(data: map<ItemId, ItemData>, expanded: map<ItemId, bool>) {
    && expanded.Keys == data.Keys
    && ChildrenIn(data)
  }

  /** The children `c` shows while its parent is expanded: its own children
      when its Expanded flag is set, nothing otherwise. */
  function Kids(data: map<ItemId, ItemData>, expanded: map<ItemId, bool>, c: ItemId): (r: seq<ItemId>)
    requires Closed(data, expanded) && c in data
    ensures forall x | x in r :: x in data
  {
    if expanded[c] then data[c].children else []
  }

  /** The shown children of every item of `cs`, in order. */
  function AllKids(data: map<ItemId, ItemData>, expanded: map<ItemId, bool>, cs: seq<ItemId>): (r: seq<ItemId>)
    requires Closed(data, expanded) && forall c | c in cs :: c in data
    ensures forall x | x in r :: x in data
  {
    if cs == [] then []
    else AllKids(data, expanded, cs[..|cs| - 1]) + Kids(data, expanded, cs[|cs| - 1])
  }

  /** What expandCollapse shows below an item whose children are `cs`: each
      child followed by the children it shows. */
  function Blocks(data: map<ItemId, ItemData>, expanded: map<ItemId, bool>, cs: seq<ItemId>): (r: seq<ItemId>)
    requires Closed(data, expanded) && forall c | c in cs :: c in data
    ensures forall x | x in r :: x in data
  {
    if cs == [] then []
    else Blocks(data, expanded, cs[..|cs| - 1]) + [cs[|cs| - 1]] + Kids(data, expanded, cs[|cs| - 1])
  }

  /** Blocks holds the children and the children they show, nothing else. */
  lemma {:induction false} BlocksMultiset(data: map<ItemId, ItemData>, expanded: map<ItemId, bool>, cs: seq<ItemId>)
    requires Closed(data, expanded) && forall c | c in cs :: c in data
    ensures multiset(Blocks(data, expanded, cs)) == multiset(cs) + multiset(AllKids(data, expanded, cs))
  {
    if cs != [] {
      BlocksMultiset(data, expanded, cs[..|cs| - 1]);
      SplitLast(cs);
    }
  }

  /** Blocks and AllKids read the Expanded flags of `cs` only. */
  lemma {:induction false} BlocksFrame(data: map<ItemId, ItemData>, e1: map<ItemId, bool>, e2: map<ItemId, bool>, cs: seq<ItemId>)
    requires Closed(data, e1) && Closed(data, e2) && forall c | c in cs :: c in data
    requires forall c | c in cs :: e1[c] == e2[c]
    ensures Blocks(data, e1, cs) == Blocks(data, e2, cs)
    ensures AllKids(data, e1, cs) == AllKids(data, e2, cs)
  {
    if cs != [] {
      BlocksFrame(data, e1, e2, cs[..|cs| - 1]);
    }
  }

  /** Blocks holds exactly the children and the children they show. */
  lemma InBlocks(data: map<ItemId, ItemData>, expanded: map<ItemId, bool>, cs: seq<ItemId>, x: ItemId)
    requires Closed(data, expanded) && forall c | c in cs :: c in data
    ensures x in Blocks(data, expanded, cs) <==> x in cs || x in AllKids(data, expanded, cs)
  {
    BlocksMultiset(data, expanded, cs);
    InSum(Blocks(data, expanded, cs), cs, AllKids(data, expanded, cs), x);
  }

  /** Everything in Blocks is a child or a child it shows. */
  lemma InBlocksAll(data: map<ItemId, ItemData>, expanded: map<ItemId, bool>, cs: seq<ItemId>)
    requires Closed(data, expanded) && forall c | c in cs :: c in data
    ensures forall x | x in Blocks(data, expanded, cs) :: x in cs || x in AllKids(data, expanded, cs)
  {
    forall x | x in Blocks(data, expanded, cs) ensures x in cs || x in AllKids(data, expanded, cs) {
      InBlocks(data, expanded, cs, x);
    }
  }

  /** Without duplicates in Blocks, the children are distinct and none of
      them is a shown grandchild. */
  lemma BlocksNoDup(data: map<ItemId, ItemData>, expanded: map<ItemId, bool>, cs: seq<ItemId>)
    requires Closed(data, expanded) && forall c | c in cs :: c in data
    requires NoDup(Blocks(data, expanded, cs))
    ensures NoDup(cs)
    ensures forall x | x in AllKids(data, expanded, cs) :: x !in cs
  {
    var b := Blocks(data, expanded, cs);
    BlocksMultiset(data, expanded, cs);
    forall x | x in cs ensures multiset(cs)[x] <= 1 {
      NoDupOnce(b, x);
    }
    OnceNoDup(cs);
    forall x | x in AllKids(data, expanded, cs) ensures x !in cs {
      NoDupOnce(b, x);
    }
  }

  // ---------------------------------------------------------------------
  // The expanding branch: expand(child) for each child whose flag is set.

  /** The children `cs` sit in the projection between `pre` and `post`, and
      Blocks is defined for them. */
  ghost predicate ChildrenBetween(t: TreeState, pre: seq<ItemId>, cs: seq<ItemId>, post: seq<ItemId>) {
    && Closed(t.data, t.expanded)
    && (forall c | c in cs :: c in t.data && c in t.level)
    && t.flat == pre + cs + post
  }

  /** The children's loop of the expanding branch may run on `t`: what the
      children `cs` are to show is distinct and hidden. */
  ghost predicate ChildrenExpandable(t: TreeState, pre: seq<ItemId>, cs: seq<ItemId>, post: seq<ItemId>) {
    && Valid(t)
    && ChildrenBetween(t, pre, cs, post)
    && NoDup(Blocks(t.data, t.expanded, cs))
    && (forall x | x in AllKids(t.data, t.expanded, cs) :: x !in t.flat)
  }

  /** What the children's loop of the expanding branch leaves: between `pre`
      and `post` the children are replaced by their Blocks, only the shown
      grandchildren are new, no shown item changes Level and no hidden item
      changes Position. */
  ghost predicate ExpandedShape(t: TreeState, pre: seq<ItemId>, cs: seq<ItemId>, post: seq<ItemId>, r: TreeState) {
    && ChildrenBetween(t, pre, cs, post)
    && r.data == t.data && r.expanded == t.expanded && r.roots == t.roots
    && r.position.Keys == t.position.Keys && r.level.Keys == t.level.Keys
    && r.flat == pre + Blocks(t.data, t.expanded, cs) + post
    && multiset(r.flat) == multiset(t.flat) + multiset(AllKids(t.data, t.expanded, cs))
    && (forall id | id in t.flat && id in t.level :: r.level[id] == t.level[id])
    && (forall id | id in t.position && id !in r.flat :: r.position[id] == t.position[id])
  }

  /** The loop may stop one child early; the last child then joins `post`. */
  lemma ExpandablePrefix(t: TreeState, pre: seq<ItemId>, cs: seq<ItemId>, post: seq<ItemId>, q: seq<ItemId>)
    requires ChildrenExpandable(t, pre, cs, post) && cs != []
    requires q == [cs[|cs| - 1]] + post
    ensures ChildrenExpandable(t, pre, cs[..|cs| - 1], q)
  {
    var init, last := cs[..|cs| - 1], cs[|cs| - 1];
    var bi := Blocks(t.data, t.expanded, init);
    SplitLast(cs);
    RegroupLast(pre, cs, init, last, post);
    NoDupConcat(bi + [last], Kids(t.data, t.expanded, last));
    NoDupConcat(bi, [last]);
  }

  /** Before the step for the last child, that child sits right after the
      Blocks of the ones before it. */
  lemma LastChildAt(t: TreeState, pre: seq<ItemId>, cs: seq<ItemId>, post: seq<ItemId>, q: seq<ItemId>, u: TreeState)
    requires Closed(t.data, t.expanded) && (forall c | c in cs :: c in t.data) && cs != []
    requires q == [cs[|cs| - 1]] + post && Valid(u)
    requires u.flat == pre + Blocks(t.data, t.expanded, cs[..|cs| - 1]) + q
    ensures u.position[cs[|cs| - 1]] == |pre| + |Blocks(t.data, t.expanded, cs[..|cs| - 1])|
  {
    JoinAt(u.flat, pre, Blocks(t.data, t.expanded, cs[..|cs| - 1]), cs[|cs| - 1], post);
  }

  /** ... and the children it is to show are distinct and still hidden. */
  lemma LastKidsHidden(t: TreeState, cs: seq<ItemId>, u: TreeState)
    requires Closed(t.data, t.expanded) && (forall c | c in cs :: c in t.data) && cs != []
    requires NoDup(Blocks(t.data, t.expanded, cs))
    requires forall x | x in AllKids(t.data, t.expanded, cs) :: x !in t.flat
    requires multiset(u.flat) == multiset(t.flat) + multiset(AllKids(t.data, t.expanded, cs[..|cs| - 1]))
    ensures NoDup(Kids(t.data, t.expanded, cs[|cs| - 1]))
    ensures forall x | x in Kids(t.data, t.expanded, cs[|cs| - 1]) :: x !in u.flat
  {
    var init, last := cs[..|cs| - 1], cs[|cs| - 1];
    var bi := Blocks(t.data, t.expanded, init);
    var kids := Kids(t.data, t.expanded, last);
    NoDupConcat(bi + [last], kids);
    BlocksMultiset(t.data, t.expanded, init);
    forall x | x in kids ensures x !in u.flat {
      assert x in AllKids(t.data, t.expanded, cs);
      assert x !in bi + [last];
      InSum(bi, init, AllKids(t.data, t.expanded, init), x);
      InSum(u.flat, t.flat, AllKids(t.data, t.expanded, init), x);
    }
  }

  /** What one step of the loop adds to the projection: the shown children
      of the last child. */
  lemma ChildStepMultiset(t: TreeState, cs: seq<ItemId>, u: TreeState, v: TreeState, p: int, k: seq<ItemId>)
    requires Closed(t.data, t.expanded) && (forall c | c in cs :: c in t.data) && cs != []
    requires multiset(u.flat) == multiset(t.flat) + multiset(AllKids(t.data, t.expanded, cs[..|cs| - 1]))
    requires k == Kids(t.data, t.expanded, cs[|cs| - 1])
    requires 0 <= p <= |u.flat| && v.flat == Splice(u.flat, p, k)
    ensures multiset(v.flat) == multiset(u.flat) + multiset(k)
    ensures multiset(v.flat) == multiset(t.flat) + multiset(AllKids(t.data, t.expanded, cs))
  {
    var ak := AllKids(t.data, t.expanded, cs[..|cs| - 1]);
    SpliceMultiset(u.flat, p, k);
    SpliceMultisetStep(v.flat, u.flat, t.flat, ak, k, p);
  }

  /** Two steps that each leave alone the Level of what was shown and the
      Position of what is hidden after them, and only add entries, leave
      those fields alone together. */
  lemma FramesCompose(t: TreeState, u: TreeState, v: TreeState, a: seq<ItemId>, k: seq<ItemId>)
    requires u.position.Keys == t.position.Keys && u.level.Keys == t.level.Keys
    requires v.position.Keys == u.position.Keys && v.level.Keys == u.level.Keys
    requires multiset(u.flat) == multiset(t.flat) + multiset(a)
    requires multiset(v.flat) == multiset(u.flat) + multiset(k)
    requires forall id | id in t.flat && id in t.level :: u.level[id] == t.level[id]
    requires forall id | id in t.position && id !in u.flat :: u.position[id] == t.position[id]
    requires forall id | id in u.flat && id in u.level :: v.level[id] == u.level[id]
    requires forall id | id in u.position && id !in v.flat :: v.position[id] == u.position[id]
    ensures forall id | id in t.flat && id in t.level :: v.level[id] == t.level[id]
    ensures forall id | id in t.position && id !in v.flat :: v.position[id] == t.position[id]
  {
    forall id | id in t.flat && id in t.level ensures v.level[id] == t.level[id] {
      InSum(u.flat, t.flat, a, id);
    }
    forall id | id in t.position && id !in v.flat ensures v.position[id] == t.position[id] {
      InSum(v.flat, u.flat, k, id);
    }
  }

  /** What one step of the loop does, seen from the state `u` before it:
      `k` is spliced in at index `p`, and nothing else that is shown changes
      Level, and nothing hidden changes Position. */
  ghost predicate StepFacts(u: TreeState, v: TreeState, p: int, k: seq<ItemId>) {
    && v.data == u.data && v.expanded == u.expanded && v.roots == u.roots
    && v.position.Keys == u.position.Keys && v.level.Keys == u.level.Keys
    && 0 <= p <= |u.flat| && v.flat == Splice(u.flat, p, k)
    && (forall id | id in u.flat && id in u.level :: v.level[id] == u.level[id])
    && (forall id | id in u.position && id !in v.flat :: v.position[id] == u.position[id])
  }

  /** expand(item) is such a step, splicing the item's children in after it. */
  lemma ExpandStepFacts(u: TreeState, item: ItemId, p: int, k: seq<ItemId>)
    requires ExpandDefined(u, item)
    requires forall x | x in u.data[item].children :: x !in u.flat
    requires p == u.position[item] + 1 && k == u.data[item].children
    ensures StepFacts(u, Expand(u, item), p, k)
  {
    ExpandFrames(u, item);
  }

  /** One step of the loop, whatever it does to the last child, as long as
      it splices that child's shown children in right after it and touches
      no other Level or hidden Position. */
  lemma ChildStepShape(t: TreeState, pre: seq<ItemId>, cs: seq<ItemId>, post: seq<ItemId>, q: seq<ItemId>,
                       u: TreeState, v: TreeState, p: int, k: seq<ItemId>)
    requires ChildrenBetween(t, pre, cs, post) && cs != [] && q == [cs[|cs| - 1]] + post
    requires ExpandedShape(t, pre, cs[..|cs| - 1], q, u)
    requires p == |pre| + |Blocks(t.data, t.expanded, cs[..|cs| - 1])| + 1 && k == Kids(t.data, t.expanded, cs[|cs| - 1])
    requires StepFacts(u, v, p, k)
    ensures ExpandedShape(t, pre, cs, post, v)
  {
    ChildStepMultiset(t, cs, u, v, p, k);
    FramesCompose(t, u, v, AllKids(t.data, t.expanded, cs[..|cs| - 1]), k);
    SpliceAfterJoin(u.flat, pre, Blocks(t.data, t.expanded, cs[..|cs| - 1]), cs[|cs| - 1], post, p, k);
  }

  /** Before the step for the last child, expand may run on it if its flag
      is set. */
  lemma LastChildReady(t: TreeState, pre: seq<ItemId>, cs: seq<ItemId>, post: seq<ItemId>, q: seq<ItemId>, u: TreeState)
    requires ChildrenExpandable(t, pre, cs, post) && cs != [] && q == [cs[|cs| - 1]] + post
    requires Valid(u) && ExpandedShape(t, pre, cs[..|cs| - 1], q, u)
    requires t.expanded[cs[|cs| - 1]]
    ensures u.position[cs[|cs| - 1]] == |pre| + |Blocks(t.data, t.expanded, cs[..|cs| - 1])|
    ensures CanExpand(u, cs[|cs| - 1])
  {
    LastChildAt(t, pre, cs, post, q, u);
    LastKidsHidden(t, cs, u);
  }

  /** The step for a child whose flag is set: expand it. `last` is the
      child, `p` the index right after it and `k` its children. */
  lemma ExpandChildStep(t: TreeState, pre: seq<ItemId>, cs: seq<ItemId>, post: seq<ItemId>, q: seq<ItemId>,
                        u: TreeState, last: ItemId, p: int, k: seq<ItemId>)
    requires ChildrenBetween(t, pre, cs, post) && cs != [] && last == cs[|cs| - 1] && q == [last] + post
    requires ExpandedShape(t, pre, cs[..|cs| - 1], q, u)
    requires ExpandDefined(u, last) && forall x | x in k :: x !in u.flat
    requires p == u.position[last] + 1 && p == |pre| + |Blocks(t.data, t.expanded, cs[..|cs| - 1])| + 1
    requires k == u.data[last].children && k == Kids(t.data, t.expanded, last)
    ensures ExpandedShape(t, pre, cs, post, Expand(u, last))
  {
    ExpandStepFacts(u, last, p, k);
    ChildStepShape(t, pre, cs, post, q, u, Expand(u, last), p, k);
  }

  /** The step for a child whose flag is clear: nothing happens, and the
      child's Blocks part is the child alone. */
  lemma SkipChildStep(t: TreeState, pre: seq<ItemId>, cs: seq<ItemId>, post: seq<ItemId>, q: seq<ItemId>, u: TreeState)
    requires ChildrenBetween(t, pre, cs, post) && cs != [] && q == [cs[|cs| - 1]] + post
    requires ExpandedShape(t, pre, cs[..|cs| - 1], q, u)
    requires !t.expanded[cs[|cs| - 1]]
    ensures ExpandedShape(t, pre, cs, post, u)
  {
    var p := |pre| + |Blocks(t.data, t.expanded, cs[..|cs| - 1])| + 1;
    SpliceAfterJoin(u.flat, pre, Blocks(t.data, t.expanded, cs[..|cs| - 1]), cs[|cs| - 1], post, p, []);
    SpliceNothing(u.flat, p);
    ChildStepShape(t, pre, cs, post, q, u, u, p, []);
  }

  /** With nothing to do, the loop leaves the shape as it is. */
  lemma NoChildrenShape(t: TreeState, pre: seq<ItemId>, post: seq<ItemId>)
    requires ChildrenBetween(t, pre, [], post)
    ensures ExpandedShape(t, pre, [], post, t)
  {
  }

  /** The step for a last child whose flag is set, from the state the loop
      reached before it. */
  lemma ExpandLastStep(t: TreeState, pre: seq<ItemId>, cs: seq<ItemId>, post: seq<ItemId>, q: seq<ItemId>, u: TreeState)
    requires ChildrenExpandable(t, pre, cs, post) && cs != [] && q == [cs[|cs| - 1]] + post
    requires Valid(u) && ExpandedShape(t, pre, cs[..|cs| - 1], q, u)
    requires t.expanded[cs[|cs| - 1]]
    ensures CanExpand(u, cs[|cs| - 1])
    ensures ExpandedShape(t, pre, cs, post, Expand(u, cs[|cs| - 1]))
  {
    LastChildReady(t, pre, cs, post, q, u);
    var last := cs[|cs| - 1];
    ExpandChildStep(t, pre, cs, post, q, u, last, u.position[last] + 1, Kids(t.data, t.expanded, last));
  }

  /** The expanding branch's loop over the children: expand(child) for each
      child whose Expanded flag is set, in order. */
  ghost function ExpandChildren(t: TreeState, pre: seq<ItemId>, cs: seq<ItemId>, post: seq<ItemId>): (r: TreeState)
    requires ChildrenExpandable(t, pre, cs, post)
    ensures Valid(r) && ExpandedShape(t, pre, cs, post, r)
    decreases |cs|
  {
    if cs == [] then
      NoChildrenShape(t, pre, post);
      t
    else
      var last := cs[|cs| - 1];
      var q := [last] + post;
      ExpandablePrefix(t, pre, cs, post, q);
      var u := ExpandChildren(t, pre, cs[..|cs| - 1], q);
      if t.expanded[last] then
        ExpandLastStep(t, pre, cs, post, q, u);
        ExpandKeepsValid(u, last);
        Expand(u, last)
      else
        SkipChildStep(t, pre, cs, post, q, u);
        u
  }

  /** The expanding branch's loop keeps every line showing its entry. */
  lemma {:induction false} ExpandChildrenShown(t: TreeState, pre: seq<ItemId>, cs: seq<ItemId>, post: seq<ItemId>)
    requires ChildrenExpandable(t, pre, cs, post) && Shown(t)
    ensures Shown(ExpandChildren(t, pre, cs, post))
    decreases |cs|
  {
    if cs != [] {
      var last := cs[|cs| - 1];
      var q := [last] + post;
      ExpandablePrefix(t, pre, cs, post, q);
      var u := ExpandChildren(t, pre, cs[..|cs| - 1], q);
      ExpandChildrenShown(t, pre, cs[..|cs| - 1], q);
      if t.expanded[last] {
        ExpandLastStep(t, pre, cs, post, q, u);
        ExpandKeepsShown(u, last);
      }
    }
  }

  /** A child's shown children are among the shown children of the list. */
  lemma {:induction false} InAllKids(data: map<ItemId, ItemData>, expanded: map<ItemId, bool>, cs: seq<ItemId>,
                                     c: ItemId, g: ItemId)
    requires Closed(data, expanded) && (forall x | x in cs :: x in data)
    requires c in cs && g in Kids(data, expanded, c)
    ensures g in AllKids(data, expanded, cs)
    decreases |cs|
  {
    if c != cs[|cs| - 1] {
      SplitLast(cs);
      assert c in cs[..|cs| - 1];
      InAllKids(data, expanded, cs[..|cs| - 1], c, g);
    }
  }

  /** The step for a last child whose flag is set gives that child's
      children the Level below it, and changes the Level of no grandchild
      shown before. */
  lemma ExpandLevelsStep(t: TreeState, pre: seq<ItemId>, cs: seq<ItemId>, post: seq<ItemId>, q: seq<ItemId>,
                         u: TreeState, last: ItemId)
    requires ChildrenExpandable(t, pre, cs, post) && cs != [] && last == cs[|cs| - 1] && q == [last] + post
    requires Valid(u) && ExpandedShape(t, pre, cs[..|cs| - 1], q, u) && t.expanded[last]
    requires forall c, g | c in cs[..|cs| - 1] && g in Kids(t.data, t.expanded, c) ::
      g in u.level && u.level[g] == t.level[c] + 1
    ensures CanExpand(u, last)
    ensures forall c, g | c in cs && g in Kids(t.data, t.expanded, c) ::
      g in Expand(u, last).level && Expand(u, last).level[g] == t.level[c] + 1
  {
    LastChildReady(t, pre, cs, post, q, u);
    LastKidsHidden(t, cs, u);
    ExpandFrames(u, last);
    var r := Expand(u, last);
    var init := cs[..|cs| - 1];
    assert t.flat[|pre| + |cs| - 1] == last;
    assert u.level[last] == t.level[last];
    forall c, g | c in cs && g in Kids(t.data, t.expanded, c)
      ensures g in r.level && r.level[g] == t.level[c] + 1
    {
      if g in Kids(t.data, t.expanded, last) {
        if c != last {
          SplitLast(cs);
          assert c in init;
          InAllKids(t.data, t.expanded, init, c, g);
          InSum(u.flat, t.flat, AllKids(t.data, t.expanded, init), g);
        }
      } else {
        assert c != last;
        SplitLast(cs);
        assert c in init;
      }
    }
  }

  /** The expanding branch's loop gives each shown grandchild the Level
      below its parent child. */
  lemma {:induction false} ExpandChildrenLevels(t: TreeState, pre: seq<ItemId>, cs: seq<ItemId>, post: seq<ItemId>,
                                                r: TreeState)
    requires ChildrenExpandable(t, pre, cs, post) && r == ExpandChildren(t, pre, cs, post)
    ensures forall c, g | c in cs && g in Kids(t.data, t.expanded, c) :: g in r.level && r.level[g] == t.level[c] + 1
    decreases |cs|
  {
    if cs != [] {
      var last := cs[|cs| - 1];
      var q := [last] + post;
      ExpandablePrefix(t, pre, cs, post, q);
      var u := ExpandChildren(t, pre, cs[..|cs| - 1], q);
      ExpandChildrenLevels(t, pre, cs[..|cs| - 1], q, u);
      ExpandChildrenUnfold(t, pre, cs, post, q, u, r);
      ExpandLevelsTurn(t, pre, cs, post, q, u, r);
    }
  }

  /** The last turn of the expanding branch's loop, spelled out. */
  lemma ExpandChildrenUnfold(t: TreeState, pre: seq<ItemId>, cs: seq<ItemId>, post: seq<ItemId>, q: seq<ItemId>,
                             u: TreeState, r: TreeState)
    requires ChildrenExpandable(t, pre, cs, post) && cs != [] && q == [cs[|cs| - 1]] + post
    requires ChildrenExpandable(t, pre, cs[..|cs| - 1], q)
    requires u == ExpandChildren(t, pre, cs[..|cs| - 1], q) && r == ExpandChildren(t, pre, cs, post)
    ensures t.expanded[cs[|cs| - 1]] ==> ExpandDefined(u, cs[|cs| - 1]) && r == Expand(u, cs[|cs| - 1])
    ensures !t.expanded[cs[|cs| - 1]] ==> r == u
  {
    if t.expanded[cs[|cs| - 1]] {
      ExpandLastStep(t, pre, cs, post, q, u);
    }
  }

  /** One turn of ExpandChildrenLevels, from what the loop reached before the
      last child. */
  lemma ExpandLevelsTurn(t: TreeState, pre: seq<ItemId>, cs: seq<ItemId>, post: seq<ItemId>, q: seq<ItemId>,
                         u: TreeState, r: TreeState)
    requires ChildrenExpandable(t, pre, cs, post) && cs != [] && q == [cs[|cs| - 1]] + post
    requires Valid(u) && ExpandedShape(t, pre, cs[..|cs| - 1], q, u)
    requires t.expanded[cs[|cs| - 1]] ==> ExpandDefined(u, cs[|cs| - 1]) && r == Expand(u, cs[|cs| - 1])
    requires !t.expanded[cs[|cs| - 1]] ==> r == u
    requires forall c, g | c in cs[..|cs| - 1] && g in Kids(t.data, t.expanded, c) ::
      g in u.level && u.level[g] == t.level[c] + 1
    ensures forall c, g | c in cs && g in Kids(t.data, t.expanded, c) :: g in r.level && r.level[g] == t.level[c] + 1
  {
    var last := cs[|cs| - 1];
    if t.expanded[last] {
      ExpandLevelsStep(t, pre, cs, post, q, u, last);
    } else {
      forall c, g | c in cs && g in Kids(t.data, t.expanded, c)
        ensures g in u.level && u.level[g] == t.level[c] + 1
      {
        SplitLast(cs);
        assert c in cs[..|cs| - 1];
      }
    }
  }

  // ---------------------------------------------------------------------
  // The collapsing branch: collapse(child) for each child whose flag is set.

  /** The children `cs` and what they show sit in the projection between
      `pre` and `post`, as the expanding branch leaves them. */
  ghost predicate BlocksBetween(t: TreeState, pre: seq<ItemId>, cs: seq<ItemId>, post: seq<ItemId>) {
    && Closed(t.data, t.expanded)
    && (forall c | c in cs :: c in t.data)
    && t.flat == pre + Blocks(t.data, t.expanded, cs) + post
  }

  /** What the children's loop of the collapsing branch leaves: between
      `pre` and `post` only the children remain, the grandchildren they
      showed leave the projection with Position -1, and no Level, Expanded
      flag or hidden Position changes. */
  ghost predicate CollapsedShape(t: TreeState, pre: seq<ItemId>, cs: seq<ItemId>, post: seq<ItemId>, r: TreeState) {
    && BlocksBetween(t, pre, cs, post)
    && r.data == t.data && r.expanded == t.expanded && r.roots == t.roots && r.level == t.level
    && r.position.Keys == t.position.Keys
    && r.flat == pre + cs + post
    && multiset(r.flat) + multiset(AllKids(t.data, t.expanded, cs)) == multiset(t.flat)
    && (forall x | x in AllKids(t.data, t.expanded, cs) :: x in r.position && r.position[x] == -1)
    && (forall id | id in t.position && id !in t.flat :: r.position[id] == t.position[id])
  }

  /** The loop may stop one child early; what follows is then the last
      child, what it shows, and `post`. */
  lemma BlocksBetweenPrefix(t: TreeState, pre: seq<ItemId>, cs: seq<ItemId>, post: seq<ItemId>, q: seq<ItemId>)
    requires BlocksBetween(t, pre, cs, post) && cs != []
    requires q == [cs[|cs| - 1]] + Kids(t.data, t.expanded, cs[|cs| - 1]) + post
    ensures BlocksBetween(t, pre, cs[..|cs| - 1], q)
  {
    Regroup(pre, Blocks(t.data, t.expanded, cs), Blocks(t.data, t.expanded, cs[..|cs| - 1]),
            cs[|cs| - 1], Kids(t.data, t.expanded, cs[|cs| - 1]), post);
  }

  /** What one step of the collapsing loop does, seen from the state `u`
      before it: the k entries from index `p` leave the projection and get
      Position -1, and nothing else changes but the Position of what moves. */
  ghost predicate CutFacts(u: TreeState, v: TreeState, p: int, k: seq<ItemId>) {
    && v.data == u.data && v.expanded == u.expanded && v.roots == u.roots && v.level == u.level
    && v.position.Keys == u.position.Keys
    && 0 <= p && p + |k| <= |u.flat| && u.flat[p..p + |k|] == k
    && v.flat == Cut(u.flat, p, |k|)
    && (forall x | x in k :: x in v.position && v.position[x] == -1)
    && (forall id | id in u.position && id !in u.flat :: v.position[id] == u.position[id])
  }

  /** collapse(item) is such a step, for the item's children after it. */
  lemma CollapseStepFacts(u: TreeState, item: ItemId, p: int, k: seq<ItemId>)
    requires CollapseDefined(u, item) && u.position.Keys == u.data.Keys && NoDup(u.flat)
    requires p == u.position[item] + 1 && k == u.data[item].children && u.flat[p..p + |k|] == k
    ensures CutFacts(u, Collapse(u, item), p, k)
  {
    NoDupApart(u.flat, p, p + |k|, k);
    CollapseFrames(u, item);
  }

  /** Before the step for the last child, that child sits right after the
      children before it, followed by what it shows; so collapse may run on
      it if its flag is set. */
  lemma LastBlockReady(t: TreeState, pre: seq<ItemId>, cs: seq<ItemId>, post: seq<ItemId>, q: seq<ItemId>, u: TreeState)
    requires Closed(t.data, t.expanded) && (forall c | c in cs :: c in t.data) && cs != []
    requires q == [cs[|cs| - 1]] + Kids(t.data, t.expanded, cs[|cs| - 1]) + post
    requires Valid(u) && u.data == t.data && u.expanded == t.expanded
    requires u.flat == pre + cs[..|cs| - 1] + q
    requires t.expanded[cs[|cs| - 1]]
    ensures u.position[cs[|cs| - 1]] == |pre| + |cs| - 1
    ensures CanCollapse(u, cs[|cs| - 1])
    ensures Kids(t.data, t.expanded, cs[|cs| - 1]) == u.data[cs[|cs| - 1]].children
    ensures u.flat[|pre| + |cs|..|pre| + |cs| + |Kids(t.data, t.expanded, cs[|cs| - 1])|] == Kids(t.data, t.expanded, cs[|cs| - 1])
  {
    var init, last := cs[..|cs| - 1], cs[|cs| - 1];
    var k := Kids(t.data, t.expanded, last);
    ConcatParts(u.flat, pre, init, last, k, post, |pre| + |init|, |pre| + |cs|);
    ConcatParts(u.flat, pre, init, last, k, post, u.position[last], u.position[last] + 1);
  }

  /** One step of the collapsing loop, whatever it does to the last child,
      as long as it cuts out the children that child shows. */
  lemma CollapseChildStepShape(t: TreeState, pre: seq<ItemId>, cs: seq<ItemId>, post: seq<ItemId>, q: seq<ItemId>,
                               u: TreeState, v: TreeState, p: int, k: seq<ItemId>)
    requires Valid(t) && BlocksBetween(t, pre, cs, post) && cs != []
    requires k == Kids(t.data, t.expanded, cs[|cs| - 1]) && q == [cs[|cs| - 1]] + k + post
    requires CollapsedShape(t, pre, cs[..|cs| - 1], q, u)
    requires p == |pre| + |cs|
    requires CutFacts(u, v, p, k)
    ensures CollapsedShape(t, pre, cs, post, v)
  {
    var init, last := cs[..|cs| - 1], cs[|cs| - 1];
    var ak := AllKids(t.data, t.expanded, init);
    SplitLast(cs);
    CutAfterHead(u.flat, pre, init, q, last, k, post, cs, p);
    CutMultisetStep(v.flat, u.flat, t.flat, ak, k, p);
    ValidNoDup(t);
    CutPositions(t.flat, u.flat, t.position, u.position, v.position, ak, k);
  }

  /** Positions after one step of the collapsing loop: what left the
      projection before or in this step has Position -1, and the Position of
      what was hidden from the start is untouched. */
  lemma CutPositions(tf: seq<ItemId>, uf: seq<ItemId>, tp: map<ItemId, int>, up: map<ItemId, int>, vp: map<ItemId, int>,
                     ak: seq<ItemId>, k: seq<ItemId>)
    requires NoDup(tf) && multiset(uf) + multiset(ak) == multiset(tf)
    requires up.Keys == tp.Keys && vp.Keys == up.Keys
    requires forall x | x in ak :: x in up && up[x] == -1
    requires forall id | id in tp && id !in tf :: up[id] == tp[id]
    requires forall x | x in k :: x in vp && vp[x] == -1
    requires forall id | id in up && id !in uf :: vp[id] == up[id]
    ensures forall x | x in ak + k :: x in vp && vp[x] == -1
    ensures forall id | id in tp && id !in tf :: vp[id] == tp[id]
  {
    forall x | x in ak ensures vp[x] == -1 {
      CountedOut(tf, uf, ak, x);
    }
    forall id | id in tp && id !in tf ensures vp[id] == tp[id] {
      InSum(tf, uf, ak, id);
    }
  }

  /** Leaving the state as it is cuts nothing. */
  lemma CutNothingFacts(u: TreeState, p: int)
    requires 0 <= p <= |u.flat|
    ensures CutFacts(u, u, p, [])
  {
    CutNothing(u.flat, p);
  }

  /** The step for a child whose flag is clear: nothing happens. */
  lemma SkipCollapseStep(t: TreeState, pre: seq<ItemId>, cs: seq<ItemId>, post: seq<ItemId>, q: seq<ItemId>, u: TreeState)
    requires Valid(t) && BlocksBetween(t, pre, cs, post) && cs != []
    requires q == [cs[|cs| - 1]] + Kids(t.data, t.expanded, cs[|cs| - 1]) + post
    requires CollapsedShape(t, pre, cs[..|cs| - 1], q, u)
    requires !t.expanded[cs[|cs| - 1]]
    ensures CollapsedShape(t, pre, cs, post, u)
  {
    var p := |pre| + |cs|;
    CutNothingFacts(u, p);
    CollapseChildStepShape(t, pre, cs, post, q, u, u, p, []);
  }

  /** With nothing to do, the loop leaves the shape as it is. */
  lemma NoBlocksShape(t: TreeState, pre: seq<ItemId>, post: seq<ItemId>)
    requires BlocksBetween(t, pre, [], post)
    ensures CollapsedShape(t, pre, [], post, t)
  {
  }

  /** The step for a last child whose flag is set, from the state the loop
      reached before it. */
  lemma CollapseLastStep(t: TreeState, pre: seq<ItemId>, cs: seq<ItemId>, post: seq<ItemId>, q: seq<ItemId>, u: TreeState)
    requires Valid(t) && BlocksBetween(t, pre, cs, post) && cs != [] && t.expanded[cs[|cs| - 1]]
    requires q == [cs[|cs| - 1]] + Kids(t.data, t.expanded, cs[|cs| - 1]) + post
    requires Valid(u) && CollapsedShape(t, pre, cs[..|cs| - 1], q, u)
    ensures CanCollapse(u, cs[|cs| - 1])
    ensures CollapsedShape(t, pre, cs, post, Collapse(u, cs[|cs| - 1]))
  {
    LastBlockReady(t, pre, cs, post, q, u);
    var last, p, k := cs[|cs| - 1], |pre| + |cs|, Kids(t.data, t.expanded, cs[|cs| - 1]);
    ValidNoDup(u);
    CollapseStepFacts(u, last, p, k);
    CollapseChildStepShape(t, pre, cs, post, q, u, Collapse(u, last), p, k);
  }

  /** The collapsing branch's loop over the children: collapse(child) for
      each child whose Expanded flag is set, in order. */
  ghost function CollapseChildren(t: TreeState, pre: seq<ItemId>, cs: seq<ItemId>, post: seq<ItemId>): (r: TreeState)
    requires Valid(t) && BlocksBetween(t, pre, cs, post)
    ensures Valid(r) && CollapsedShape(t, pre, cs, post, r)
    decreases |cs|
  {
    if cs == [] then
      NoBlocksShape(t, pre, post);
      t
    else
      var last := cs[|cs| - 1];
      var q := [last] + Kids(t.data, t.expanded, last) + post;
      BlocksBetweenPrefix(t, pre, cs, post, q);
      var u := CollapseChildren(t, pre, cs[..|cs| - 1], q);
      if t.expanded[last] then
        CollapseLastStep(t, pre, cs, post, q, u);
        CollapseKeepsValid(u, last);
        Collapse(u, last)
      else
        SkipCollapseStep(t, pre, cs, post, q, u);
        u
  }

  /** The collapsing branch's loop keeps every line showing its entry. */
  lemma {:induction false} CollapseChildrenShown(t: TreeState, pre: seq<ItemId>, cs: seq<ItemId>, post: seq<ItemId>)
    requires Valid(t) && BlocksBetween(t, pre, cs, post) && Shown(t)
    ensures Shown(CollapseChildren(t, pre, cs, post))
    decreases |cs|
  {
    if cs != [] {
      var last := cs[|cs| - 1];
      var q := [last] + Kids(t.data, t.expanded, last) + post;
      BlocksBetweenPrefix(t, pre, cs, post, q);
      var u := CollapseChildren(t, pre, cs[..|cs| - 1], q);
      CollapseChildrenShown(t, pre, cs[..|cs| - 1], q);
      if t.expanded[last] {
        CollapseLastStep(t, pre, cs, post, q, u);
        CollapseKeepsShown(u, last);
      }
    }
  }
}
