/** The TreeView object (ConsoleFramework/Controls/TreeView.cs): the fields
    of the flat projection, updated in place by expand, collapse and
    expandCollapse with the source's loops. Each method is proved to leave
    exactly the state that Expand, Collapse or Toggle describes, so
    everything proved about those functions holds of the object. */
module TreeViews {
  import opened Seqs
  import opened TreeItems
  import opened TreeProjection
  import opened TreeToggle
  import opened ExpandCollapse

  /** Expand's entries after one more child. */
  lemma EntriesStep(f: seq<ItemId>, f0: seq<ItemId>, at: int, cs: seq<ItemId>, i: int)
    requires 0 <= i < |cs| && 0 <= at <= |f0| && f == Splice(f0, at, cs[..i])
    ensures at + i <= |f| && InsertAt(f, at + i, cs[i]) == Splice(f0, at, cs[..i + 1])
  {
    assert cs[..i] + [cs[i]] == cs[..i + 1];
    SpliceGrow(f0, at, cs[..i], cs[i]);
  }

  /** Expand's lines after one more child. */
  lemma TitlesStep(ls: seq<string>, l0: seq<string>, at: int, data: map<ItemId, ItemData>,
                   expanded: map<ItemId, bool>, cs: seq<ItemId>, i: int, lvl: nat)
    requires 0 <= i < |cs| && 0 <= at <= |l0| && forall c | c in cs :: c in data && c in expanded
    requires ls == Splice(l0, at, ChildTitles(data, expanded, cs[..i], lvl))
    ensures at + i <= |ls|
    ensures InsertAt(ls, at + i, DisplayTitle(data[cs[i]], lvl, expanded[cs[i]]))
      == Splice(l0, at, ChildTitles(data, expanded, cs[..i + 1], lvl))
  {
    assert cs[..i + 1][..i] == cs[..i];
    SpliceGrow(l0, at, ChildTitles(data, expanded, cs[..i], lvl), DisplayTitle(data[cs[i]], lvl, expanded[cs[i]]));
  }

  /** Expand's disabled indexes after one more child. */
  lemma SlotsStep(dis: seq<int>, dis0: seq<int>, data: map<ItemId, ItemData>, cs: seq<ItemId>, i: int, base: int)
    requires 0 <= i < |cs| && forall c | c in cs :: c in data
    requires dis == dis0 + DisabledSlots(data, cs[..i], base)
    ensures (if data[cs[i]].disabled then dis + [base + i] else dis) == dis0 + DisabledSlots(data, cs[..i + 1], base)
  {
    assert cs[..i + 1][..i] == cs[..i];
  }

  /** Collapse's disabled indexes after one more child. */
  lemma RemoveSlotsStep(dis: seq<int>, d: seq<int>, data: map<ItemId, ItemData>, cs: seq<ItemId>, i: int, v: int)
    requires 0 <= i < |cs| && forall c | c in cs :: c in data
    requires dis == RemoveSlots(d, data, cs[..i], v)
    ensures (if data[cs[i]].disabled then RemoveFirst(dis, v) else dis) == RemoveSlots(d, data, cs[..i + 1], v)
  {
    assert cs[..i + 1][..i] == cs[..i];
  }

  /** Expand's levels after one more child. */
  lemma LevelsStep(lev: map<ItemId, nat>, lev0: map<ItemId, nat>, cs: seq<ItemId>, i: int, lvl: nat)
    requires 0 <= i < |cs| && cs[i] in lev0
    requires lev == Deepen(lev0, cs[..i], lvl)
    ensures lev[cs[i] := lvl] == Deepen(lev0, cs[..i + 1], lvl)
  {
    assert cs[..i + 1] == cs[..i] + [cs[i]];
  }

  /** The index-shifting loop (`treeItemsFlat[k].Position += d` for every k
      from `from` up), on the Position values it reads and writes. */
  method ShiftLoop(f: seq<ItemId>, p0: map<ItemId, int>, from: int, d: int) returns (pos: map<ItemId, int>)
    requires 0 <= from <= |f| && forall k | from <= k < |f| :: f[k] in p0
    ensures pos == Shift(p0, f[from..], d)
  {
    pos := p0;
    assert Shift(p0, [], d) == p0;
    assert f[from..from] == [];
    var k := from;
    while k < |f|
      invariant from <= k <= |f|
      invariant pos == Shift(p0, f[from..k], d)
    {
      assert f[from..k + 1] == f[from..k] + [f[k]];
      ShiftStep(pos, p0, f[from..k], f[k], d);
      pos := pos[f[k] := pos[f[k]] + d];
      k := k + 1;
    }
    assert f[from..k] == f[from..];
  }

  /** The first loop of expand (`for i < item.Items.Count`): child cs[i]
      goes in at index at + i with its line, caches that index in Position
      and lvl in Level, and a disabled child adds that index to the disabled
      indexes. */
  method ChildrenLoop(data: map<ItemId, ItemData>, expanded: map<ItemId, bool>, cs: seq<ItemId>, at: int, lvl: nat,
                      f0: seq<ItemId>, l0: seq<string>, dis0: seq<int>, p0: map<ItemId, int>, lev0: map<ItemId, nat>)
    returns (f: seq<ItemId>, ls: seq<string>, dis: seq<int>, pos: map<ItemId, int>, lev: map<ItemId, nat>)
    requires 0 <= at <= |f0| && |l0| == |f0|
    requires forall c | c in cs :: c in data && c in expanded && c in p0 && c in lev0
    ensures f == Splice(f0, at, cs)
    ensures ls == Splice(l0, at, ChildTitles(data, expanded, cs, lvl))
    ensures dis == dis0 + DisabledSlots(data, cs, at)
    ensures pos == Place(p0, cs, at)
    ensures lev == Deepen(lev0, cs, lvl)
  {
    f, ls, dis, pos, lev := f0, l0, dis0, p0, lev0;
    assert cs[..0] == [];
    var i := 0;
    while i < |cs|
      invariant 0 <= i <= |cs|
      invariant f == Splice(f0, at, cs[..i])
      invariant ls == Splice(l0, at, ChildTitles(data, expanded, cs[..i], lvl))
      invariant dis == dis0 + DisabledSlots(data, cs[..i], at)
      invariant pos == Place(p0, cs[..i], at)
      invariant lev == Deepen(lev0, cs[..i], lvl)
    {
      var child := cs[i];
      EntriesStep(f, f0, at, cs, i);
      f := InsertAt(f, i + at, child);
      PlaceStep(pos, p0, cs, i, at);
      pos := pos[child := i + at];
      LevelsStep(lev, lev0, cs, i, lvl);
      lev := lev[child := lvl];
      TitlesStep(ls, l0, at, data, expanded, cs, i, lvl);
      ls := InsertAt(ls, i + at, DisplayTitle(data[child], lev[child], expanded[child]));
      SlotsStep(dis, dis0, data, cs, i, at);
      if data[child].disabled {
        dis := dis + [i + at];
      }
      i := i + 1;
    }
    assert cs[..|cs|] == cs;
  }

  /** After the first loop of expand every entry has a Position. */
  lemma ExpandedEntriesKnown(s: TreeState, item: ItemId, f: seq<ItemId>, pos: map<ItemId, int>)
    requires Valid(s) && item in s.flat
    requires f == Splice(s.flat, s.position[item] + 1, s.data[item].children)
    requires pos == Place(s.position, s.data[item].children, s.position[item] + 1)
    ensures forall k | 0 <= k < |f| :: f[k] in pos
  {
    VisibleAt(s, item);
    PositionKeys(s.position, s.data[item].children, s.position[item] + 1);
    forall k | 0 <= k < |f| ensures f[k] in pos {
      InSplice(s.flat, s.position[item] + 1, s.data[item].children, f[k]);
    }
  }

  /** A visible item of a valid projection can be expanded. */
  lemma VisibleExpandDefined(s: TreeState, item: ItemId)
    requires Valid(s) && item in s.flat
    ensures ExpandDefined(s, item) && forall c | c in s.data[item].children :: c in s.level
  {
    VisibleAt(s, item);
  }

  /** What the two loops of expand compute is Expand. */
  lemma ExpandIs(s: TreeState, item: ItemId, idx: int, cs: seq<ItemId>, lvl: nat,
                 f: seq<ItemId>, ls: seq<string>, dis: seq<int>,
                 placed: map<ItemId, int>, pos: map<ItemId, int>, lev: map<ItemId, nat>)
    requires ExpandDefined(s, item)
    requires idx == s.position[item] && cs == s.data[item].children && lvl == s.level[item] + 1
    requires f == Splice(s.flat, idx + 1, cs)
    requires ls == Splice(s.lines, idx + 1, ChildTitles(s.data, s.expanded, cs, lvl))
    requires dis == s.disabledIndexes + DisabledSlots(s.data, cs, idx + 1)
    requires placed == Place(s.position, cs, idx + 1)
    requires idx + 1 + |cs| <= |f| && pos == Shift(placed, f[idx + 1 + |cs|..], |cs|)
    requires lev == Deepen(s.level, cs, lvl)
    ensures Expand(s, item) == s.(flat := f, lines := ls, disabledIndexes := dis, position := pos, level := lev)
  {
    SpliceTail(s.flat, idx + 1, cs, f);
  }

  /** expand's two loops on the fields they read and write: the item is
      looked up with IndexOf, its children go in after it, then every later
      entry moves down by the child count. */
  method ExpandLoops(s: TreeState, item: ItemId) returns (r: TreeState)
    requires Valid(s) && item in s.flat
    ensures r == Expand(s, item)
    ensures r.data == s.data && r.roots == s.roots && r.expanded == s.expanded
  {
    var index := IndexOf(s.flat, item);
    IndexOfPosition(s, item);
    VisibleExpandDefined(s, item);
    var cs := s.data[item].children;
    var lvl := s.level[item] + 1;
    var f, ls, dis, placed, lev := ChildrenLoop(s.data, s.expanded, cs, index + 1, lvl,
                                                s.flat, s.lines, s.disabledIndexes, s.position, s.level);
    ExpandedEntriesKnown(s, item, f, placed);
    var pos := ShiftLoop(f, placed, index + 1 + |cs|, |cs|);
    ExpandIs(s, item, index, cs, lvl, f, ls, dis, placed, pos, lev);
    r := s.(flat := f, lines := ls, disabledIndexes := dis, position := pos, level := lev);
  }

  /** The loop of collapse (`foreach child in item.Items`): each turn takes
      the entry and the line at index `at` out, drops one occurrence of `at`
      from the disabled indexes for a disabled child, and sets the child's
      Position to -1. */
  method CutLoop(data: map<ItemId, ItemData>, cs: seq<ItemId>, at: int,
                 f0: seq<ItemId>, l0: seq<string>, dis0: seq<int>, p0: map<ItemId, int>)
    returns (f: seq<ItemId>, ls: seq<string>, dis: seq<int>, pos: map<ItemId, int>)
    requires 0 <= at && at + |cs| <= |f0| && |l0| == |f0|
    requires forall c | c in cs :: c in data && c in p0
    ensures f == Cut(f0, at, |cs|)
    ensures ls == Cut(l0, at, |cs|)
    ensures dis == RemoveSlots(dis0, data, cs, at)
    ensures pos == Park(p0, cs)
  {
    f, ls, dis, pos := f0, l0, dis0, p0;
    CutNothing(f0, at);
    CutNothing(l0, at);
    assert cs[..0] == [];
    assert Park(p0, []) == p0;
    var i := 0;
    while i < |cs|
      invariant 0 <= i <= |cs|
      invariant f == Cut(f0, at, i) && ls == Cut(l0, at, i)
      invariant dis == RemoveSlots(dis0, data, cs[..i], at)
      invariant pos == Park(p0, cs[..i])
    {
      var child := cs[i];
      CutStep(f, f0, at, i);
      f := RemoveAt(f, at);
      RemoveSlotsStep(dis, dis0, data, cs, i, at);
      if data[child].disabled {
        dis := RemoveFirst(dis, at);
      }
      CutStep(ls, l0, at, i);
      ls := RemoveAt(ls, at);
      ParkStep(pos, p0, cs, i);
      pos := pos[child := -1];
      i := i + 1;
    }
    assert cs[..|cs|] == cs;
  }

  /** After the loop of collapse every entry has a Position. */
  lemma CutEntriesKnown(s: TreeState, at: int, n: int, f: seq<ItemId>, pos: map<ItemId, int>)
    requires Valid(s) && 0 <= at && 0 <= n && at + n <= |s.flat|
    requires f == Cut(s.flat, at, n) && pos.Keys == s.position.Keys
    ensures forall k | 0 <= k < |f| :: f[k] in pos
  {
    forall k | 0 <= k < |f| ensures f[k] in pos {
      CutIndex(s.flat, at, n, k);
    }
  }

  /** What the two loops of collapse compute is Collapse. */
  lemma CollapseIs(s: TreeState, item: ItemId, idx: int, cs: seq<ItemId>,
                   f: seq<ItemId>, ls: seq<string>, dis: seq<int>, parked: map<ItemId, int>, pos: map<ItemId, int>)
    requires CollapseDefined(s, item)
    requires idx == s.position[item] && cs == s.data[item].children
    requires f == Cut(s.flat, idx + 1, |cs|) && ls == Cut(s.lines, idx + 1, |cs|)
    requires dis == RemoveSlots(s.disabledIndexes, s.data, cs, idx + 1)
    requires parked == Park(s.position, cs)
    requires idx + 1 <= |f| && pos == Shift(parked, f[idx + 1..], -|cs|)
    ensures Collapse(s, item) == s.(flat := f, lines := ls, disabledIndexes := dis, position := pos)
  {
    CutTail(s.flat, idx + 1, |cs|);
  }

  /** collapse's two loops on the fields they read and write: the item is
      looked up with IndexOf, as many entries as it has children are taken
      out after it, then every later entry moves up by that count. */
  method CollapseLoops(s: TreeState, item: ItemId) returns (r: TreeState)
    requires Valid(s) && item in s.flat
    requires s.position[item] + 1 + |s.data[item].children| <= |s.flat|
    ensures r == Collapse(s, item)
    ensures r.data == s.data && r.roots == s.roots && r.level == s.level && r.expanded == s.expanded
  {
    var index := IndexOf(s.flat, item);
    IndexOfPosition(s, item);
    VisibleAt(s, item);
    var cs := s.data[item].children;
    var f, ls, dis, parked := CutLoop(s.data, cs, index + 1, s.flat, s.lines, s.disabledIndexes, s.position);
    PositionKeys(s.position, cs, 0);
    CutEntriesKnown(s, index + 1, |cs|, f, parked);
    var pos := ShiftLoop(f, parked, index + 1, -|cs|);
    CollapseIs(s, item, index, cs, f, ls, dis, parked, pos);
    r := s.(flat := f, lines := ls, disabledIndexes := dis, position := pos);
  }

  /** The blocks of two runs of children, one after the other. */
  lemma {:induction false} BlocksAppend(data: map<ItemId, ItemData>, expanded: map<ItemId, bool>, a: seq<ItemId>, b: seq<ItemId>)
    requires Closed(data, expanded) && (forall c | c in a :: c in data) && forall c | c in b :: c in data
    ensures Blocks(data, expanded, a + b) == Blocks(data, expanded, a) + Blocks(data, expanded, b)
    decreases |b|
  {
    if b == [] {
      assert a + b == a;
    } else {
      var ab, init, last := a + b, b[..|b| - 1], b[|b| - 1];
      var k := Kids(data, expanded, last);
      assert ab[..|ab| - 1] == a + init && ab[|ab| - 1] == last;
      BlocksAppend(data, expanded, a, init);
      assert Blocks(data, expanded, ab) == Blocks(data, expanded, a) + Blocks(data, expanded, init) + [last] + k;
      RegroupTail(Blocks(data, expanded, a), Blocks(data, expanded, init), last, k);
    }
  }

  /** Blocks seen from the front: the first child, what it shows, then the
      blocks of the others. */
  lemma BlocksFront(data: map<ItemId, ItemData>, expanded: map<ItemId, bool>, cs: seq<ItemId>)
    requires Closed(data, expanded) && cs != [] && forall c | c in cs :: c in data
    ensures Blocks(data, expanded, cs) == [cs[0]] + Kids(data, expanded, cs[0]) + Blocks(data, expanded, cs[1..])
  {
    var h, r := [cs[0]], cs[1..];
    assert cs == h + r;
    BlocksAppend(data, expanded, h, r);
    assert h[..0] == [] && h[0] == cs[0];
    assert Blocks(data, expanded, []) == [];
    assert Blocks(data, expanded, h) == [cs[0]] + Kids(data, expanded, cs[0]);
  }

  /** The collapsing loop's view of the children after `i` turns: the first
      `i` children still show their blocks, the rest have joined `post`. */
  lemma BlocksBetweenAt(t: TreeState, pre: seq<ItemId>, cs: seq<ItemId>, post: seq<ItemId>, i: int)
    requires BlocksBetween(t, pre, cs, post) && 0 <= i <= |cs|
    ensures BlocksBetween(t, pre, cs[..i], Blocks(t.data, t.expanded, cs[i..]) + post)
  {
    assert cs == cs[..i] + cs[i..];
    BlocksAppend(t.data, t.expanded, cs[..i], cs[i..]);
    Regroup3(pre, Blocks(t.data, t.expanded, cs[..i]), Blocks(t.data, t.expanded, cs[i..]), post);
  }

  /** The expanding loop's view of the children after `i` turns. */
  lemma {:induction false} ExpandableAt(t: TreeState, pre: seq<ItemId>, cs: seq<ItemId>, post: seq<ItemId>, i: int)
    requires ChildrenExpandable(t, pre, cs, post) && 0 <= i <= |cs|
    ensures ChildrenExpandable(t, pre, cs[..i], cs[i..] + post)
    decreases |cs|
  {
    if i == |cs| {
      assert cs[..i] == cs && cs[i..] + post == post;
    } else {
      var init, last := cs[..|cs| - 1], cs[|cs| - 1];
      var q := [last] + post;
      ExpandablePrefix(t, pre, cs, post, q);
      ExpandableAt(t, pre, init, q, i);
      assert init[..i] == cs[..i];
      assert init[i..] + q == cs[i..] + post;
    }
  }

  /** The loops' split of the children after one more turn. */
  lemma NextChild(cs: seq<ItemId>, i: int, j: int, post: seq<ItemId>)
    requires 0 <= i < |cs| && j == i + 1
    ensures cs[..j] == cs[..i] + [cs[i]]
    ensures cs[i..] + post == [cs[i]] + (cs[j..] + post)
  {
    assert cs[i..] == [cs[i]] + cs[j..];
  }

  /** What the children after the first `i` show, seen from the front. */
  lemma RestFront(data: map<ItemId, ItemData>, expanded: map<ItemId, bool>, cs: seq<ItemId>, i: int, post: seq<ItemId>)
    requires Closed(data, expanded) && 0 <= i < |cs| && forall c | c in cs :: c in data
    ensures cs[..i + 1] == cs[..i] + [cs[i]]
    ensures Blocks(data, expanded, cs[i..]) + post
         == [cs[i]] + Kids(data, expanded, cs[i]) + (Blocks(data, expanded, cs[i + 1..]) + post)
  {
    var r := cs[i..];
    assert r[0] == cs[i] && r[1..] == cs[i + 1..];
    BlocksFront(data, expanded, r);
  }

  /** CollapseChildren takes one more child: it collapses that child when
      its flag is set and leaves the state alone otherwise. */
  lemma CollapseFoldStep(t: TreeState, pre: seq<ItemId>, done: seq<ItemId>, last: ItemId, q1: seq<ItemId>, u: TreeState)
    requires Valid(t) && BlocksBetween(t, pre, done + [last], q1)
    requires BlocksBetween(t, pre, done, [last] + Kids(t.data, t.expanded, last) + q1)
    requires u == CollapseChildren(t, pre, done, [last] + Kids(t.data, t.expanded, last) + q1)
    ensures u.expanded == t.expanded
    ensures t.expanded[last] ==> CanCollapse(u, last) && CollapseChildren(t, pre, done + [last], q1) == Collapse(u, last)
    ensures !t.expanded[last] ==> CollapseChildren(t, pre, done + [last], q1) == u
  {
    var c := done + [last];
    assert c[..|c| - 1] == done && c[|c| - 1] == last;
    if t.expanded[last] {
      CollapseLastStep(t, pre, c, q1, [last] + Kids(t.data, t.expanded, last) + q1, u);
    }
  }

  /** ExpandChildren takes one more child: it expands that child when its
      flag is set and leaves the state alone otherwise. */
  lemma ExpandFoldStep(t: TreeState, pre: seq<ItemId>, done: seq<ItemId>, last: ItemId, q1: seq<ItemId>, u: TreeState)
    requires ChildrenExpandable(t, pre, done + [last], q1)
    requires ChildrenExpandable(t, pre, done, [last] + q1)
    requires u == ExpandChildren(t, pre, done, [last] + q1)
    ensures u.expanded == t.expanded
    ensures t.expanded[last] ==> CanExpand(u, last) && ExpandChildren(t, pre, done + [last], q1) == Expand(u, last)
    ensures !t.expanded[last] ==> ExpandChildren(t, pre, done + [last], q1) == u
  {
    var c := done + [last];
    assert c[..|c| - 1] == done && c[|c| - 1] == last;
    if t.expanded[last] {
      ExpandLastStep(t, pre, c, q1, [last] + q1, u);
    }
  }

  /** One turn of the collapsing branch's loop over the children, in the
      loop's own terms. */
  lemma CollapseChildrenStep(t: TreeState, pre: seq<ItemId>, cs: seq<ItemId>, post: seq<ItemId>, i: int, j: int,
                             q: seq<ItemId>, q1: seq<ItemId>, u: TreeState)
    requires Valid(t) && BlocksBetween(t, pre, cs, post) && 0 <= i < |cs| && j == i + 1
    requires q == Blocks(t.data, t.expanded, cs[i..]) + post && q1 == Blocks(t.data, t.expanded, cs[j..]) + post
    requires BlocksBetween(t, pre, cs[..i], q)
    requires u == CollapseChildren(t, pre, cs[..i], q)
    ensures BlocksBetween(t, pre, cs[..j], q1)
    ensures u.expanded == t.expanded
    ensures t.expanded[cs[i]] ==> CanCollapse(u, cs[i])
    ensures t.expanded[cs[i]] ==> CollapseChildren(t, pre, cs[..j], q1) == Collapse(u, cs[i])
    ensures !t.expanded[cs[i]] ==> CollapseChildren(t, pre, cs[..j], q1) == u
  {
    RestFront(t.data, t.expanded, cs, i, post);
    BlocksBetweenAt(t, pre, cs, post, j);
    CollapseFoldStep(t, pre, cs[..i], cs[i], q1, u);
  }

  /** One turn of the expanding branch's loop over the children, in the
      loop's own terms. */
  lemma ExpandChildrenStep(t: TreeState, pre: seq<ItemId>, cs: seq<ItemId>, post: seq<ItemId>, i: int, j: int, u: TreeState)
    requires ChildrenExpandable(t, pre, cs, post) && 0 <= i < |cs| && j == i + 1
    requires ChildrenExpandable(t, pre, cs[..i], cs[i..] + post)
    requires u == ExpandChildren(t, pre, cs[..i], cs[i..] + post)
    ensures ChildrenExpandable(t, pre, cs[..j], cs[j..] + post)
    ensures u.expanded == t.expanded
    ensures t.expanded[cs[i]] ==> CanExpand(u, cs[i])
    ensures t.expanded[cs[i]] ==> ExpandChildren(t, pre, cs[..j], cs[j..] + post) == Expand(u, cs[i])
    ensures !t.expanded[cs[i]] ==> ExpandChildren(t, pre, cs[..j], cs[j..] + post) == u
  {
    NextChild(cs, i, j, post);
    ExpandableAt(t, pre, cs, post, j);
    ExpandFoldStep(t, pre, cs[..i], cs[i], cs[j..] + post, u);
  }

  /** The loops' split of the children before the first turn and after the last. */
  lemma LoopEnds(cs: seq<ItemId>, post: seq<ItemId>, i: int)
    requires i == 0 || i == |cs|
    ensures i == 0 ==> cs[..i] == [] && cs[i..] == cs
    ensures i == |cs| ==> cs[..i] == cs && cs[i..] + post == post
  {
  }

  /** One turn of the collapsing branch's loop: collapse(child) when the
      child's flag is set. */
  method CollapseTurn(t: TreeState, ghost pre: seq<ItemId>, cs: seq<ItemId>, ghost post: seq<ItemId>, i: int, j: int,
                      ghost q: seq<ItemId>, ghost q1: seq<ItemId>, u: TreeState) returns (v: TreeState)
    requires Valid(t) && BlocksBetween(t, pre, cs, post) && 0 <= i < |cs| && j == i + 1
    requires q == Blocks(t.data, t.expanded, cs[i..]) + post && q1 == Blocks(t.data, t.expanded, cs[j..]) + post
    requires BlocksBetween(t, pre, cs[..i], q)
    requires u == CollapseChildren(t, pre, cs[..i], q)
    ensures BlocksBetween(t, pre, cs[..j], q1)
    ensures v == CollapseChildren(t, pre, cs[..j], q1)
  {
    CollapseChildrenStep(t, pre, cs, post, i, j, q, q1, u);
    v := u;
    if u.expanded[cs[i]] {
      v := CollapseLoops(u, cs[i]);
    }
  }

  /** After the collapsing loop's last turn no children are left to show. */
  lemma BlocksLoopEnd(data: map<ItemId, ItemData>, expanded: map<ItemId, bool>, cs: seq<ItemId>, post: seq<ItemId>, i: int)
    requires Closed(data, expanded) && (forall c | c in cs :: c in data) && i == |cs|
    ensures cs[..i] == cs && Blocks(data, expanded, cs[i..]) + post == post
  {
    assert cs[i..] == [];
  }

  /** The collapsing branch's loop over the children:
      `foreach (child in item.Items.Where(child => child.Expanded)) collapse(child)`. */
  method CollapseChildrenLoop(t: TreeState, ghost pre: seq<ItemId>, cs: seq<ItemId>, ghost post: seq<ItemId>)
    returns (u: TreeState)
    requires Valid(t) && BlocksBetween(t, pre, cs, post)
    ensures u == CollapseChildren(t, pre, cs, post)
  {
    LoopEnds(cs, post, 0);
    BlocksBetweenAt(t, pre, cs, post, 0);
    u := t;
    var i := 0;
    ghost var q := Blocks(t.data, t.expanded, cs[i..]) + post;
    while i < |cs|
      invariant 0 <= i <= |cs|
      invariant q == Blocks(t.data, t.expanded, cs[i..]) + post
      invariant BlocksBetween(t, pre, cs[..i], q)
      invariant u == CollapseChildren(t, pre, cs[..i], q)
    {
      var j := i + 1;
      ghost var q1 := Blocks(t.data, t.expanded, cs[j..]) + post;
      u := CollapseTurn(t, pre, cs, post, i, j, q, q1, u);
      i, q := j, q1;
    }
    BlocksLoopEnd(t.data, t.expanded, cs, post, i);
  }

  /** One turn of the expanding branch's loop: expand(child) when the
      child's flag is set. */
  method ExpandTurn(t: TreeState, ghost pre: seq<ItemId>, cs: seq<ItemId>, ghost post: seq<ItemId>, i: int, j: int,
                    u: TreeState) returns (v: TreeState)
    requires ChildrenExpandable(t, pre, cs, post) && 0 <= i < |cs| && j == i + 1
    requires ChildrenExpandable(t, pre, cs[..i], cs[i..] + post)
    requires u == ExpandChildren(t, pre, cs[..i], cs[i..] + post)
    ensures ChildrenExpandable(t, pre, cs[..j], cs[j..] + post)
    ensures v == ExpandChildren(t, pre, cs[..j], cs[j..] + post)
  {
    ExpandChildrenStep(t, pre, cs, post, i, j, u);
    v := u;
    if u.expanded[cs[i]] {
      v := ExpandLoops(u, cs[i]);
    }
  }

  /** The expanding branch's loop over the children:
      `foreach (child in item.Items.Where(child => child.Expanded)) expand(child)`. */
  method ExpandChildrenLoop(t: TreeState, ghost pre: seq<ItemId>, cs: seq<ItemId>, ghost post: seq<ItemId>)
    returns (u: TreeState)
    requires ChildrenExpandable(t, pre, cs, post)
    ensures u == ExpandChildren(t, pre, cs, post)
  {
    LoopEnds(cs, post, 0);
    ExpandableAt(t, pre, cs, post, 0);
    u := t;
    var i := 0;
    while i < |cs|
      invariant 0 <= i <= |cs|
      invariant ChildrenExpandable(t, pre, cs[..i], cs[i..] + post)
      invariant u == ExpandChildren(t, pre, cs[..i], cs[i..] + post)
    {
      var j := i + 1;
      u := ExpandTurn(t, pre, cs, post, i, j, u);
      i := j;
    }
    LoopEnds(cs, post, i);
  }

  /** The collapsing branch as the loop, collapse(item) and the flag. */
  lemma CollapseBranchIs(s: TreeState, item: ItemId, pre: seq<ItemId>, post: seq<ItemId>, u: TreeState, v: TreeState)
    requires CanToggle(s, item) && s.expanded[item]
    requires pre == s.flat[..s.position[item] + 1] && post == s.flat[s.position[item] + 1 + |Below(s, item)|..]
    requires BlocksBetween(s, pre, s.data[item].children, post)
    requires u == CollapseChildren(s, pre, s.data[item].children, post)
    requires CanCollapse(u, item) && u.position[item] == s.position[item] && v == Collapse(u, item)
    ensures 0 <= s.position[item] < |v.lines| && item in v.level
    ensures CollapseBranch(s, item) == SetFlag(v, item, s.position[item], false)
  {
    CollapseKeepsValid(u, item);
    CutIndex(u.flat, s.position[item] + 1, |s.data[item].children|, s.position[item]);
    CollapseBranchUnfolds(s, item, pre, post, u, v);
  }

  /** The collapsing branch, unfolded. */
  lemma CollapseBranchUnfolds(s: TreeState, item: ItemId, pre: seq<ItemId>, post: seq<ItemId>, u: TreeState, v: TreeState)
    requires CanToggle(s, item) && s.expanded[item]
    requires pre == s.flat[..s.position[item] + 1] && post == s.flat[s.position[item] + 1 + |Below(s, item)|..]
    requires BlocksBetween(s, pre, s.data[item].children, post)
    requires u == CollapseChildren(s, pre, s.data[item].children, post)
    requires CanCollapse(u, item) && v == Collapse(u, item)
    requires 0 <= s.position[item] < |v.lines| && item in v.level
    ensures CollapseBranch(s, item) == SetFlag(v, item, s.position[item], false)
  {
    var r := CollapseBranch(s, item);
    assert r == SetFlag(Collapse(CollapseChildren(s, s.flat[..s.position[item] + 1], s.data[item].children,
                                                  s.flat[s.position[item] + 1 + |Below(s, item)|..]), item),
                        item, s.position[item], false);
  }

  /** After expand(item), the flag and the redrawn line, the children's loop
      may run, and what it leaves is the expanding branch. */
  lemma FlaggedReady(s: TreeState, item: ItemId, index: int, x: TreeState, pre: seq<ItemId>, post: seq<ItemId>)
    requires CanToggle(s, item) && !s.expanded[item] && index == s.position[item]
    requires CanExpand(s, item) && item !in s.data[item].children && Valid(Expand(s, item))
    requires x == Expand(s, item).(expanded := Expand(s, item).expanded[item := true],
                                   lines := Expand(s, item).lines[index := DisplayTitle(s.data[item], Expand(s, item).level[item], true)])
    requires pre == s.flat[..index + 1] && post == s.flat[index + 1..]
    ensures ChildrenExpandable(x, pre, s.data[item].children, post)
    ensures ExpandBranch(s, item) == ExpandChildren(x, pre, s.data[item].children, post)
  {
    assert x == SetFlag(Expand(s, item), item, index, true);
    FlaggedExpandable(s, item, x, pre, post);
    ExpandBranchIs(s, item, x, pre, post);
  }

  /** expandCollapse on an expanded item: collapse every child whose flag is
      set, collapse the item, clear its flag and redraw its line. */
  method CollapseBranchLoops(s: TreeState, item: ItemId) returns (r: TreeState)
    requires CanToggle(s, item) && s.expanded[item]
    ensures r == CollapseBranch(s, item)
  {
    var index := IndexOf(s.flat, item);
    IndexOfPosition(s, item);
    var cs := s.data[item].children;
    ghost var pre, post := s.flat[..index + 1], s.flat[index + 1 + |Below(s, item)|..];
    CollapseBranchReady(s, item);
    var u := CollapseChildrenLoop(s, pre, cs, post);
    CollapseItemReady(s, item, pre, post, u);
    var v := CollapseLoops(u, item);
    CollapseBranchIs(s, item, pre, post, u, v);
    r := v.(expanded := v.expanded[item := false],
            lines := v.lines[index := DisplayTitle(v.data[item], v.level[item], false)]);
  }

  /** expandCollapse on a collapsed item: expand the item, set its flag and
      redraw its line, then expand every child whose flag is set. */
  method ExpandBranchLoops(s: TreeState, item: ItemId) returns (r: TreeState)
    requires CanToggle(s, item) && !s.expanded[item]
    ensures r == ExpandBranch(s, item)
  {
    var index := IndexOf(s.flat, item);
    IndexOfPosition(s, item);
    ExpandItemReady(s, item);
    var w := ExpandLoops(s, item);
    ExpandKeepsValid(s, item);
    var x := w.(expanded := w.expanded[item := true],
                lines := w.lines[index := DisplayTitle(w.data[item], w.level[item], true)]);
    var cs := s.data[item].children;
    ghost var pre, post := s.flat[..index + 1], s.flat[index + 1..];
    FlaggedReady(s, item, index, x, pre, post);
    r := ExpandChildrenLoop(x, pre, cs, post);
  }

  /** expandCollapse: the collapsing branch when the item's flag is set, the
      expanding branch otherwise. */
  method ToggleLoops(s: TreeState, item: ItemId) returns (r: TreeState)
    requires CanToggle(s, item)
    ensures r == Toggle(s, item)
    ensures r.data == s.data && r.roots == s.roots
  {
    if s.expanded[item] {
      r := CollapseBranchLoops(s, item);
    } else {
      r := ExpandBranchLoops(s, item);
    }
  }

  class TreeView {
    var data: map<ItemId, ItemData>
    var roots: seq<ItemId>
    var flat: seq<ItemId>
    var lines: seq<string>
    var disabledIndexes: seq<int>
    var position: map<ItemId, int>
    var level: map<ItemId, nat>
    var expanded: map<ItemId, bool>

    function State(): TreeState
      reads this
    {
      TreeState(data, roots, flat, lines, disabledIndexes, position, level, expanded)
    }

    /** expand (TreeView.cs:167-182), in place. */
    method ExpandItem(item: ItemId)
      requires Valid(State()) && item in flat
      modifies this
      ensures State() == Expand(old(State()), item)
    {
      var r := ExpandLoops(State(), item);
      Store(r);
    }

    /** collapse (TreeView.cs:184-195), in place. */
    method CollapseItem(item: ItemId)
      requires Valid(State()) && item in flat
      requires position[item] + 1 + |data[item].children| <= |flat|
      modifies this
      ensures State() == Collapse(old(State()), item)
    {
      var r := CollapseLoops(State(), item);
      Store(r);
    }

    /** expandCollapse (TreeView.cs:197-220), in place. */
    method ExpandCollapseItem(item: ItemId)
      requires CanToggle(State(), item)
      modifies this
      ensures State() == Toggle(old(State()), item)
    {
      var r := ToggleLoops(State(), item);
      Store(r);
    }

    /** Writes back the fields a TreeView method changed. */
    method Store(r: TreeState)
      requires r.data == data && r.roots == roots
      modifies this
      ensures State() == r
    {
      flat, lines, disabledIndexes, position, level, expanded :=
        r.flat, r.lines, r.disabledIndexes, r.position, r.level, r.expanded;
    }
  }
}
