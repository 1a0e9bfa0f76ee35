/** The pure part of ConsoleFramework/Controls/TreeView.cs: what a TreeItem
    shows in the list box (GetDisplayTitle) and whether it has children. */
module TreeItems {

  /** TreeItem objects are identified by number; the tree view keeps their
      mutable fields (Position, Level, Expanded) in maps keyed by this id. */
  type ItemId = nat

  /** The fields of a TreeItem that the tree view reads but never writes:
      Title, Disabled and the items of its own Items list. */
  datatype ItemData = ItemData(title: string, disabled: bool, children: seq<ItemId>)

  /** The glyphs UnicodeTable.ArrowDown and UnicodeTable.ArrowRight
      (UnicodeTable is not part of this model; any two distinct
      non-space characters serve). */
  const ArrowDown: char := '\U{25BC}'
  const ArrowRight: char := '\U{25BA}'

  /** Every item of a list is an item of the tree. */
  ghost predicate AllIn(items: seq<ItemId>, data: map<ItemId, ItemData>) {
    forall id | id in items :: id in data
  }

  /** Every child of an item is an item too. */
  ghost predicate ChildrenIn(data: map<ItemId, ItemData>) {
    forall id | id in data :: AllIn(data[id].children, data)
  }

  /** TreeItem.HasChildren. */
  predicate HasChildren(d: ItemData) {
    |d.children| != 0
  }

  /** `new string(' ', n)`. */
  function Spaces(n: nat): (r: string)
    ensures |r| == n
    ensures forall i | 0 <= i < n :: r[i] == ' '
  {
    seq(n, _ => ' ')
  }

  /** TreeItem.GetDisplayTitle: an indent of two spaces per level, then the
      arrow for the expanded state and a space when the item has children
      (two spaces otherwise), then the title. */
  function DisplayTitle(d: ItemData, level: nat, expanded: bool): (r: string)
    ensures |r| == 2 * level + 2 + |d.title|
    ensures forall i | 0 <= i < 2 * level :: r[i] == ' '
    ensures r[2 * level + 1] == ' '
    ensures r[2 * level + 2..] == d.title
    ensures HasChildren(d) ==> r[2 * level] == (if expanded then ArrowDown else ArrowRight)
    ensures !HasChildren(d) ==> r[2 * level] == ' '
  {
    var marker := if HasChildren(d) then [if expanded then ArrowDown else ArrowRight, ' '] else "  ";
    assert (Spaces(2 * level) + marker + d.title)[2 * level + 2..] == d.title;
    Spaces(2 * level) + marker + d.title
  }

  /** Flipping Expanded changes the shown title exactly when the item has
      children, which is why expandCollapse rewrites the item's line. */
  lemma TitleShowsExpandedOnlyWithChildren(d: ItemData, level: nat)
    ensures DisplayTitle(d, level, true) != DisplayTitle(d, level, false) <==> HasChildren(d)
  {
    var t, f := DisplayTitle(d, level, true), DisplayTitle(d, level, false);
    if HasChildren(d) {
      assert t[2 * level] != f[2 * level];
    } else {
      assert t == f;
    }
  }
}
