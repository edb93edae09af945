/** The `Octree` class of `src/lib/Octree.ts`, over the cell arena of `OctreeSpec`.

    The tree's cells live in the field `cells`; a `Cell` object of the source is
    an index into it. Methods that create or refill cells reassign the field, and
    their contracts relate the new arena to the old one. */
module Octrees {
  import opened Vectors
  import opened Utils
  import opened Boxes
  import opened OctreeSpec

  /** Keeps only the elements that satisfy `keep`, in order. */
  function Filter(s: seq<V3>, keep: V3 -> bool): (r: seq<V3>)
    ensures |r| <= |s|
    ensures forall p :: p in r ==> p in s && keep(p)
  {
    if s == [] then [] else Filter(s[..|s| - 1], keep) + (if keep(s[|s| - 1]) then [s[|s| - 1]] else [])
  }

  /** The pass of `addItems` over its argument: the points `inside` accepts, in order. */
  method SelectInside(items: seq<V3>, inside: V3 -> bool) returns (pushed: seq<V3>)
    ensures pushed == Filter(items, inside)
  {
    pushed := [];
    for n := 0 to |items|
      invariant pushed == Filter(items[..n], inside)
    {
      assert items[..n + 1][..n] == items[..n];
      if inside(items[n]) {
        pushed := pushed + [items[n]];
      }
    }
    assert items[..|items|] == items;
  }

  function MaxNat(a: nat, b: nat): nat { if a >= b then a else b }

  /** The `{ depth }` record `get_actual_max_depth` passes down the tree. */
  class DepthRecord {
    var depth: nat

    constructor (d: nat)
      ensures depth == d
    {
      depth := d;
    }
  }

  class Octree {
    const bbox: Box
    const maxDepth: int
    const maxItems: int
    /** Every cell created so far; cell 0 is the root. */
    var cells: seq<CellRec>

    /** A well-formed tree whose points lie in their cells' boxes, and where no
        subdivision is pending. */
    ghost predicate Valid()
      reads this
    {
      Wf(cells, maxDepth, bbox) && Placed(cells) && Settled(cells, maxDepth, maxItems)
    }

    /** Every item stored in the tree, in the order `do_get_all_items` lists them. */
    ghost function AllItems(): seq<V3>
      reads this
    {
      SubtreeItems(cells, 0)
    }

    constructor (box: Box, maxDepth: int, maxItems: int)
      ensures this.bbox == box && this.maxDepth == maxDepth && this.maxItems == maxItems
      ensures cells == [CellRec(0, None, box, None, [])]
      ensures Valid()
    {
      this.bbox := box;
      this.maxDepth := maxDepth;
      this.maxItems := maxItems;
      cells := [CellRec(0, None, box, None, [])];
    }

    /** `get_child_containing`: the child of `j` in the octant of `pt`; it holds
        `pt` whenever `j` does. */
    function ChildContaining(j: nat, pt: V3): (c: nat)
      reads this
      requires Wf(cells, maxDepth, bbox) && j < |cells| && HasChildren(cells[j])
      ensures j < c < |cells| && cells[c].mother == Some(j)
      ensures c == cells[j].firstChild.value + OctantIndex(cells[j].box, pt)
      ensures Contains(cells[j].box, pt) ==> Contains(cells[c].box, pt)
    {
      var k := OctantIndex(cells[j].box, pt);
      assert ChildrenOk(cells, j, maxDepth);
      assert Contains(cells[j].box, pt) ==> Contains(Octant(cells[j].box, k), pt) by {
        if Contains(cells[j].box, pt) {
          OctantIndexContains(cells[j].box, pt);
        }
      }
      cells[j].firstChild.value + k
    }

    /** `getCellContaining`: walks down from the root to the leaf in whose octants
        `pt` falls; that leaf's box holds `pt` whenever the root's does. */
    method GetCellContaining(pt: V3) returns (c: nat)
      requires Wf(cells, maxDepth, bbox)
      ensures c == Descend(cells, 0, pt)
      ensures c < |cells| && !HasChildren(cells[c])
      ensures Contains(bbox, pt) ==> Contains(cells[c].box, pt)
    {
      c := 0;
      while HasChildren(cells[c])
        invariant c < |cells|
        invariant Descend(cells, c, pt) == Descend(cells, 0, pt)
        invariant Contains(bbox, pt) ==> Contains(cells[c].box, pt)
        decreases |cells| - c
      {
        c := ChildContaining(c, pt);
      }
    }

    /** `add_item` followed by the dispatching part of `do_subdivide`: moves every
        item of the split cell `j` into the child whose octant holds it. */
    method Dispatch(j: nat)
      requires Wf(cells, maxDepth, bbox) && Placed(cells) && j < |cells| && HasChildren(cells[j])
      modifies this
      ensures SameButItems(old(cells), cells) && Wf(cells, maxDepth, bbox) && Placed(cells)
      ensures Stored(cells) == old(Stored(cells))
      ensures cells[j].items == []
      ensures forall y :: 0 <= y < |cells| && y != j && !(cells[j].firstChild.value <= y < cells[j].firstChild.value + 8) ==>
                cells[y] == old(cells)[y]
    {
      ghost var s := cells;
      var f := cells[j].firstChild.value;
      var its := cells[j].items;
      for n := 0 to |its|
        invariant SameButItems(s, cells) && Wf(cells, maxDepth, bbox) && Placed(cells)
        invariant cells[j] == s[j]
        invariant Stored(cells) == Stored(s) + multiset(its[..n])
        invariant forall y :: 0 <= y < |cells| && y != j && !(f <= y < f + 8) ==> cells[y] == s[y]
      {
        DispatchItem(s, j, its[n]);
        PrefixSnoc(its, n);
      }
      assert its[..|its|] == its;
      DispatchClear(s, cells, maxDepth, bbox, j);
      cells := cells[j := cells[j].(items := [])];
    }

    /** One turn of that loop: `add_item` on the child of `j` whose octant holds `item`;
        only that child changes. */
    method DispatchItem(ghost s: seq<CellRec>, j: nat, item: V3)
      requires Wf(s, maxDepth, bbox) && j < |s| && HasChildren(s[j]) && Contains(s[j].box, item)
      requires SameButItems(s, cells) && Wf(cells, maxDepth, bbox) && Placed(cells)
      modifies this
      ensures SameButItems(s, cells) && Wf(cells, maxDepth, bbox) && Placed(cells)
      ensures Stored(cells) == old(Stored(cells)) + multiset{item}
      ensures cells[j] == old(cells)[j]
      ensures forall y :: 0 <= y < |cells| && !(s[j].firstChild.value <= y < s[j].firstChild.value + 8) ==>
                cells[y] == old(cells)[y]
    {
      assert ChildrenOk(s, j, maxDepth);
      var c := ChildContaining(j, item);
      DispatchStep(s, cells, maxDepth, bbox, j, item, c);
      cells := cells[c := cells[c].(items := cells[c].items + [item])];
    }

    /** `do_subdivide` on cell `j`: a cell at `maxDepth`, or a leaf within capacity,
        is left alone; otherwise a leaf gets its eight octant children, the cell's
        items move down to them, and each child is subdivided in turn. Afterwards
        the subtree of `j` is settled, no item is lost or duplicated, cells outside
        the subtree are untouched and every new cell lies below `j`. */
    method Subdivide(j: nat)
      requires Wf(cells, maxDepth, bbox) && Placed(cells) && j < |cells|
      modifies this
      ensures Wf(cells, maxDepth, bbox) && Placed(cells)
      ensures Grows(old(cells), cells)
      ensures Stored(cells) == old(Stored(cells))
      ensures forall y :: 0 <= y < old(|cells|) && !Desc(old(cells), y, j) ==> cells[y] == old(cells)[y]
      ensures forall y :: old(|cells|) <= y < |cells| ==> Desc(cells, y, j)
      ensures forall y :: 0 <= y < |cells| && Desc(cells, y, j) ==> CellSettled(cells[y], maxDepth, maxItems)
      ensures old(cells)[j].depth >= maxDepth || (!HasChildren(old(cells)[j]) && |old(cells)[j].items| <= maxItems) ==>
                cells == old(cells)
      decreases maxDepth - cells[j].depth, 3
    {
      var c := cells[j];
      if c.depth >= maxDepth || (!HasChildren(c) && |c.items| <= maxItems) {
        LeftAlone(cells, maxDepth, maxItems, bbox, j);
        return;
      }
      Split(j);
    }

    /** The splitting branch of `do_subdivide`: a leaf gets its eight octant children,
        the items of `j` move down and each child is subdivided in turn. */
    method Split(j: nat)
      requires Wf(cells, maxDepth, bbox) && Placed(cells) && j < |cells|
      requires cells[j].depth < maxDepth && (HasChildren(cells[j]) || |cells[j].items| > maxItems)
      modifies this
      ensures Wf(cells, maxDepth, bbox) && Placed(cells)
      ensures Grows(old(cells), cells)
      ensures Stored(cells) == old(Stored(cells))
      ensures forall y :: 0 <= y < old(|cells|) && !Desc(old(cells), y, j) ==> cells[y] == old(cells)[y]
      ensures forall y :: old(|cells|) <= y < |cells| ==> Desc(cells, y, j)
      ensures forall y :: 0 <= y < |cells| && Desc(cells, y, j) ==> CellSettled(cells[y], maxDepth, maxItems)
      decreases maxDepth - cells[j].depth, 2
    {
      var c := cells[j];
      ghost var pre := cells;
      if !HasChildren(c) {
        SpawnFacts(cells, maxDepth, bbox, j);
        cells := cells[j := c.(firstChild := Some(|cells|))] + NewChildren(c, j);
      }
      ghost var s0 := cells;
      Dispatch(j);
      ghost var s := cells;
      WfItems(s0, s, maxDepth, bbox);
      GrowsTrans(pre, s0, s);
      ChildrenDesc(s0, maxDepth, bbox, j);
      forall y | 0 <= y < |pre| && !Desc(pre, y, j)
        ensures s[y] == pre[y]
      {
        DescStable(pre, s0, y, j);
      }
      forall y | |pre| <= y < |s|
        ensures Desc(s, y, j)
      {
        DescStable(s0, s, y, j);
      }
      SubdivideChildren(j);
      SubdivideDone(pre, s, cells, maxDepth, maxItems, bbox, j);
    }

    /** The loop of `do_subdivide` over the eight children of an internal cell `j`:
        afterwards every cell below `j` is settled and nothing outside the
        subtree of `j` has changed. */
    method SubdivideChildren(j: nat)
      requires Wf(cells, maxDepth, bbox) && Placed(cells) && j < |cells| && HasChildren(cells[j])
      modifies this
      ensures Wf(cells, maxDepth, bbox) && Placed(cells)
      ensures Stored(cells) == old(Stored(cells))
      ensures BranchInv(old(cells), cells, j, 8, maxDepth, maxItems)
      decreases maxDepth - cells[j].depth, 1
    {
      ghost var s := cells;
      for i := 0 to 8
        invariant Wf(cells, maxDepth, bbox) && Placed(cells)
        invariant Stored(cells) == Stored(s)
        invariant BranchInv(s, cells, j, i, maxDepth, maxItems)
      {
        SubdivideChild(s, j, i);
      }
    }

    /** One turn of that loop: `do_subdivide` on child `i` of `j`, which settles the
        branch below that child and leaves the other branches alone. */
    method SubdivideChild(ghost s: seq<CellRec>, j: nat, i: nat)
      requires Wf(s, maxDepth, bbox) && j < |s| && HasChildren(s[j]) && i < 8
      requires Wf(cells, maxDepth, bbox) && Placed(cells)
      requires BranchInv(s, cells, j, i, maxDepth, maxItems)
      modifies this
      ensures Wf(cells, maxDepth, bbox) && Placed(cells)
      ensures Stored(cells) == old(Stored(cells))
      ensures BranchInv(s, cells, j, i + 1, maxDepth, maxItems)
      decreases maxDepth - s[j].depth, 0
    {
      ghost var t := cells;
      assert !InBranches(s, j, j, i);
      assert SameShape(s[j], cells[j]);
      var f := cells[j].firstChild.value;
      ChildOf(cells, maxDepth, bbox, j, i);
      Subdivide(f + i);
      BranchStep(s, t, cells, maxDepth, maxItems, bbox, j, i, f + i);
    }

    /** `addItem`: a point inside the root box is stored in the leaf that holds it
        and that leaf is refined; a point outside is ignored. */
    method AddItem(item: V3)
      requires Valid()
      modifies this
      ensures Valid()
      ensures Grows(old(cells), cells)
      ensures !Contains(bbox, item) ==> cells == old(cells)
      ensures multiset(AllItems()) == old(multiset(AllItems())) + (if Contains(bbox, item) then multiset{item} else multiset{})
    {
      AllItemsFlat(cells, maxDepth, bbox);
      if Contains(bbox, item) {
        var c := GetCellContaining(item);
        StoreItems(cells, maxDepth, bbox, c, [item]);
        cells := cells[c := cells[c].(items := cells[c].items + [item])];
        ghost var mid := cells;
        Subdivide(c);
        GrowsTrans(old(cells), mid, cells);
        SettledAfterRefine(mid, cells, maxDepth, maxItems, c);
        AllItemsFlat(cells, maxDepth, bbox);
      }
    }

    /** `addItems`: every point the box's `inside` test accepts is pushed onto the
        root, then the root is refined. */
    method AddItems(items: seq<V3>, inside: V3 -> bool)
      requires Valid()
      requires forall p :: inside(p) ==> Contains(bbox, p)
      modifies this
      ensures Valid()
      ensures Grows(old(cells), cells)
      ensures multiset(AllItems()) == old(multiset(AllItems())) + multiset(Filter(items, inside))
    {
      AllItemsFlat(cells, maxDepth, bbox);
      var pushed := SelectInside(items, inside);
      StoreItems(cells, maxDepth, bbox, 0, pushed);
      cells := cells[0 := cells[0].(items := cells[0].items + pushed)];
      ghost var mid := cells;
      Subdivide(0);
      GrowsTrans(old(cells), mid, cells);
      forall y | 0 <= y < |cells|
        ensures CellSettled(cells[y], maxDepth, maxItems)
      {
        DescRoot(cells, maxDepth, bbox, y);
      }
      AllItemsFlat(cells, maxDepth, bbox);
    }

    /** `getCellCenter`: the midpoint of the cell's box, which is where
        `do_subdivide` splits it; the root is the default cell. */
    function GetCellCenter(cell: Option<nat>): (r: V3)
      reads this
      requires cell.Some? ==> cell.value < |cells|
      requires |cells| > 0
      ensures var b := cells[if cell.Some? then cell.value else 0].box;
        r == Half(b) && (!Empty(b) ==> Contains(b, r))
    {
      var b := cells[if cell.Some? then cell.value else 0].box;
      Scale(Add(b.min, b.max), 0.5)
    }

    /** Appends `xs` to `items` one by one (the `forEach(... items.push ...)` loops). */
    method PushAll(items: PointList, xs: seq<V3>)
      modifies items
      ensures items.elems == old(items.elems) + xs
    {
      for n := 0 to |xs|
        invariant items.elems == old(items.elems) + xs[..n]
      {
        items.elems := items.elems + [xs[n]];
        PrefixSnoc(xs, n);
      }
      assert xs[..|xs|] == xs;
    }

    /** `do_get_all_items`: appends the items of every leaf below `j`, children in
        slot order. */
    method DoGetAllItems(j: nat, items: PointList)
      requires Wf(cells, maxDepth, bbox) && j < |cells|
      modifies items
      ensures items.elems == old(items.elems) + SubtreeItems(cells, j)
      decreases |cells| - j
    {
      if HasChildren(cells[j]) {
        var f := cells[j].firstChild.value;
        assert ChildrenOk(cells, j, maxDepth);
        for i := 0 to 8
          invariant items.elems == old(items.elems) + ChildrenItems(cells, f, i)
        {
          DoGetAllItems(f + i, items);
        }
      } else {
        PushAll(items, cells[j].items);
      }
    }

    /** `getAllItemsInCell`: `do_get_all_items` on the given cell, the root by default. */
    method GetAllItemsInCell(cell: Option<nat>, items: PointList)
      requires Wf(cells, maxDepth, bbox) && (cell.Some? ==> cell.value < |cells|)
      modifies items
      ensures items.elems == old(items.elems) + SubtreeItems(cells, if cell.Some? then cell.value else 0)
    {
      DoGetAllItems(if cell.Some? then cell.value else 0, items);
    }

    /** `get_intersected_items`: like `do_get_all_items`, but only entering children
        whose box meets `q`. */
    method GetIntersectedItems(j: nat, q: Box, items: PointList)
      requires Wf(cells, maxDepth, bbox) && j < |cells|
      modifies items
      ensures items.elems == old(items.elems) + IntersectedItems(cells, j, q)
      decreases |cells| - j
    {
      if HasChildren(cells[j]) {
        var f := cells[j].firstChild.value;
        assert ChildrenOk(cells, j, maxDepth);
        for i := 0 to 8
          invariant items.elems == old(items.elems) + ChildrenIntersected(cells, f, i, q)
        {
          if Intersect(cells[f + i].box, q) {
            GetIntersectedItems(f + i, q, items);
          }
        }
      } else {
        PushAll(items, cells[j].items);
      }
    }

    /** `getItemsIn` as written: the parameter `items` is rebound to a fresh array
        before the query fills it, so the caller's array is never touched. */
    method GetItemsIn(q: Box, items: PointList)
      requires Wf(cells, maxDepth, bbox)
      ensures items.elems == old(items.elems)
    {
      var local := new PointList();
      var fit := Intersection(q, bbox);
      if Empty(fit) {
        return;
      }
      GetIntersectedItems(0, fit, local);
    }

    /** `getItemsIn` as evidently intended: appends the items of the cells that meet
        the part of `q` inside the root box. */
    method GetItemsInFixed(q: Box, items: PointList)
      requires Wf(cells, maxDepth, bbox)
      modifies items
      ensures var fit := Intersection(q, bbox);
        items.elems == old(items.elems) + (if Empty(fit) then [] else IntersectedItems(cells, 0, fit))
    {
      var fit := Intersection(q, bbox);
      if Empty(fit) {
        return;
      }
      GetIntersectedItems(0, fit, items);
    }

    /** `getItemsNear` as written: like `getItemsIn`, the rebound `items` leaves the
        caller's array untouched. */
    method GetItemsNear(pt: V3, items: PointList, checkMother: bool)
      requires Wf(cells, maxDepth, bbox)
      ensures items.elems == old(items.elems)
    {
      var local := new PointList();
      if !Contains(bbox, pt) {
        return;
      }
      var c := GetCellContaining(pt);
      if |cells[c].items| > 0 {
        PushAll(local, cells[c].items);
      } else if checkMother && cells[c].mother.Some? {
        assert MotherOk(cells, c);
        DoGetAllItems(cells[c].mother.value, local);
      }
    }

    /** `getItemsNear` as evidently intended: appends the items of the leaf holding
        `pt` or, if it is empty and `checkMother` is set, those below its mother. */
    method GetItemsNearFixed(pt: V3, items: PointList, checkMother: bool)
      requires Wf(cells, maxDepth, bbox)
      modifies items
      ensures items.elems == old(items.elems) + NearItems(cells, bbox, pt, checkMother)
    {
      if !Contains(bbox, pt) {
        return;
      }
      var c := GetCellContaining(pt);
      if |cells[c].items| > 0 {
        PushAll(items, cells[c].items);
      } else if checkMother && cells[c].mother.Some? {
        assert MotherOk(cells, c);
        DoGetAllItems(cells[c].mother.value, items);
      }
    }

    /** `do_get_actual_max_depth`: raises `o.depth` to the depth of the deepest leaf
        below `j`. */
    method DoGetActualMaxDepth(j: nat, o: DepthRecord)
      requires Wf(cells, maxDepth, bbox) && j < |cells|
      modifies o
      ensures o.depth == MaxNat(old(o.depth), MaxLeafDepth(cells, j))
      decreases |cells| - j
    {
      if HasChildren(cells[j]) {
        var f := cells[j].firstChild.value;
        assert ChildrenOk(cells, j, maxDepth);
        for i := 0 to 8
          invariant o.depth == MaxNat(old(o.depth), ChildrenMaxDepth(cells, f, i))
        {
          DoGetActualMaxDepth(f + i, o);
        }
      } else if cells[j].depth > o.depth {
        o.depth := cells[j].depth;
      }
    }

    /** `get_actual_max_depth`: the depth of the deepest leaf, which no leaf exceeds
        and which is at most `maxDepth` (or 0 when `maxDepth` is negative). */
    method GetActualMaxDepth() returns (d: nat)
      requires Wf(cells, maxDepth, bbox)
      ensures d == MaxLeafDepth(cells, 0)
      ensures forall y :: 0 <= y < |cells| && !HasChildren(cells[y]) ==> cells[y].depth <= d
      ensures d <= (if maxDepth > 0 then maxDepth else 0)
    {
      var o := new DepthRecord(0);
      DoGetActualMaxDepth(0, o);
      d := o.depth;
      forall y | 0 <= y < |cells| && !HasChildren(cells[y])
        ensures cells[y].depth <= d
      {
        DescRoot(cells, maxDepth, bbox, y);
        MaxLeafDepthIsMax(cells, maxDepth, bbox, 0, y);
      }
      MaxLeafDepthBound(cells, maxDepth, bbox, 0);
    }

    /** `visit_terminal_children`: the leaves in the order the callback is applied
        to them; they are exactly the leaves of the tree. */
    method VisitTerminalChildren() returns (visited: seq<nat>)
      requires Wf(cells, maxDepth, bbox)
      ensures visited == Leaves(cells, 0)
      ensures forall y :: y in visited <==> 0 <= y < |cells| && !HasChildren(cells[y])
    {
      visited := DoVisitTerminalChildren(0);
      forall y | 0 <= y
        ensures y in visited <==> y < |cells| && !HasChildren(cells[y])
      {
        LeavesExact(cells, maxDepth, bbox, 0, y);
        if y < |cells| {
          DescRoot(cells, maxDepth, bbox, y);
        }
      }
    }

    /** `do_visit_terminal_children` on `j`: the leaves below `j`, children in slot order. */
    method DoVisitTerminalChildren(j: nat) returns (visited: seq<nat>)
      requires Wf(cells, maxDepth, bbox) && j < |cells|
      ensures visited == Leaves(cells, j)
      decreases |cells| - j
    {
      if HasChildren(cells[j]) {
        var f := cells[j].firstChild.value;
        assert ChildrenOk(cells, j, maxDepth);
        visited := [];
        for i := 0 to 8
          invariant visited == ChildrenLeaves(cells, f, i)
        {
          var more := DoVisitTerminalChildren(f + i);
          visited := visited + more;
        }
      } else {
        visited := [j];
      }
    }
  }

  /** A tree holding one point reports it through `getAllItemsInCell`, while
      `getItemsIn` over the very same box leaves the caller's list empty. */
  method ItemsInLosesResults(p: V3) returns (stored: seq<V3>, returned: seq<V3>)
    ensures stored == [p]
    ensures returned == []
  {
    var tree := new Octree(Box(p, p), 5, 10);
    tree.AddItem(p);
    var all := new PointList();
    tree.GetAllItemsInCell(None, all);
    stored := all.elems;
    assert multiset(stored) == multiset{p};
    assert stored[0] in multiset(stored);
    var got := new PointList();
    tree.GetItemsIn(Box(p, p), got);
    returned := got.elems;
  }
}
