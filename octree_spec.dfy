/** The cells of the point octree of `src/lib/Octree.ts`, held in an arena.

    A `Cell` of the source is a record here, and the tree is the sequence of all
    cells created so far: the root is cell 0, and the eight children of a cell
    `j` are the consecutive cells `f, f+1, ..., f+7` where `f` is recorded in
    `j.firstChild` (the source's `children_` array, with `children_[0] ===
    undefined` read as "no children"). Each child records its `mother` and its
    `depth`, so ancestry is computed by walking mother links. */
module OctreeSpec {
  import opened Vectors
  import opened Utils
  import opened Boxes

  datatype CellRec = CellRec(depth: nat, mother: Option<nat>, box: Box, firstChild: Option<nat>, items: seq<V3>)

  /** `has_children`. */
  predicate HasChildren(c: CellRec) { c.firstChild.Some? }

  function Half(b: Box): V3 {
    V3((b.min.x + b.max.x) / 2.0, (b.min.y + b.max.y) / 2.0, (b.min.z + b.max.z) / 2.0)
  }

  /** The box of child `k` created by `do_subdivide`. */
  function Octant(b: Box, k: nat): Box
    requires k < 8
  {
    var h := Half(b);
    var lo := b.min;
    var hi := b.max;
    match k
    case 0 => Box(lo, h)
    case 1 => Box(V3(h.x, lo.y, lo.z), V3(hi.x, h.y, h.z))
    case 2 => Box(V3(h.x, h.y, lo.z), V3(hi.x, hi.y, h.z))
    case 3 => Box(V3(lo.x, h.y, lo.z), V3(h.x, hi.y, h.z))
    case 4 => Box(V3(lo.x, lo.y, h.z), V3(h.x, h.y, hi.z))
    case 5 => Box(V3(h.x, lo.y, h.z), V3(hi.x, h.y, hi.z))
    case 6 => Box(h, hi)
    case 7 => Box(V3(lo.x, h.y, h.z), V3(h.x, hi.y, hi.z))
  }

  /** The child slot chosen by `get_child_containing`: `<=` the midpoint goes low. */
  function OctantIndex(b: Box, p: V3): (k: nat)
    ensures k < 8
  {
    var h := Half(b);
    if p.x <= h.x then
      if p.y <= h.y then (if p.z <= h.z then 0 else 4)
      else (if p.z <= h.z then 3 else 7)
    else
      if p.y <= h.y then (if p.z <= h.z then 1 else 5)
      else (if p.z <= h.z then 2 else 6)
  }

  /** The octant a point is sent to is the one whose box holds it, whenever the
      cell's box does. */
  lemma OctantIndexContains(b: Box, p: V3)
    requires Contains(b, p)
    ensures Contains(Octant(b, OctantIndex(b, p)), p)
  {
  }

  /** Each octant lies inside its parent box, and the eight octants cover it. */
  lemma OctantsCover(b: Box, p: V3)
    ensures forall k :: 0 <= k < 8 && !Empty(b) ==> !Empty(Octant(b, k))
    ensures forall k, q :: 0 <= k < 8 && Contains(Octant(b, k), q) ==> Contains(b, q)
    ensures Contains(b, p) ==> exists k :: 0 <= k < 8 && Contains(Octant(b, k), p)
  {
    if Contains(b, p) {
      OctantIndexContains(b, p);
    }
  }

  // ---------------------------------------------------------------- structure

  /** Cell `y` (not the root) lies in its mother's block of children, one level down. */
  ghost predicate MotherOk(cells: seq<CellRec>, y: nat)
    requires y < |cells|
  {
    match cells[y].mother
    case None => false
    case Some(m) =>
      && m < y
      && cells[y].depth == cells[m].depth + 1
      && cells[m].firstChild.Some?
      && cells[m].firstChild.value <= y < cells[m].firstChild.value + 8
  }

  /** The children block of `y`, if any, lies after `y`, points back to `y`, carries
      the octant boxes, and exists only above `maxDepth`. */
  ghost predicate ChildrenOk(cells: seq<CellRec>, y: nat, maxDepth: int)
    requires y < |cells|
  {
    match cells[y].firstChild
    case None => true
    case Some(f) =>
      && y < f && f + 8 <= |cells|
      && cells[y].depth < maxDepth
      && forall c :: f <= c < f + 8 ==> cells[c].mother == Some(y) && cells[c].box == Octant(cells[y].box, c - f)
  }

  /** The arena is a well-formed octree rooted at cell 0 with box `root`. */
  ghost predicate Wf(cells: seq<CellRec>, maxDepth: int, root: Box) {
    && |cells| > 0
    && cells[0].depth == 0 && cells[0].mother.None? && cells[0].box == root
    && (forall y :: 0 < y < |cells| ==> MotherOk(cells, y))
    && (forall y :: 0 <= y < |cells| ==> ChildrenOk(cells, y, maxDepth))
  }

  /** A cell with children holds no items, and a non-empty leaf above `maxDepth`
      respects the capacity. (An empty leaf is left alone until an item arrives,
      even when a negative capacity would make `do_subdivide` split it.) */
  predicate CellSettled(c: CellRec, maxDepth: int, maxItems: int) {
    && (HasChildren(c) ==> c.items == [])
    && (!HasChildren(c) && c.depth < maxDepth && c.items != [] ==> |c.items| <= maxItems)
  }

  /** Every stored point lies in the box of the cell that stores it. */
  ghost predicate Placed(cells: seq<CellRec>) {
    forall y, p :: 0 <= y < |cells| && p in cells[y].items ==> Contains(cells[y].box, p)
  }

  ghost predicate Settled(cells: seq<CellRec>, maxDepth: int, maxItems: int) {
    forall y :: 0 <= y < |cells| ==> CellSettled(cells[y], maxDepth, maxItems)
  }

  /** Existing cells keep their depth, mother, box and (once set) children. */
  ghost predicate SameShape(a: CellRec, b: CellRec) {
    && a.depth == b.depth && a.mother == b.mother && a.box == b.box
    && (a.firstChild.Some? ==> b.firstChild == a.firstChild)
  }

  ghost predicate Grows(a: seq<CellRec>, b: seq<CellRec>) {
    |a| <= |b| && forall y :: 0 <= y < |a| ==> SameShape(a[y], b[y])
  }

  // ---------------------------------------------------------------- ancestry

  /** The ancestor of `y` at depth `d`, found by walking mother links. */
  ghost function AncestorAt(cells: seq<CellRec>, y: int, d: int): int
    decreases y
  {
    if y < 0 || y >= |cells| then -1
    else if cells[y].depth <= d then y
    else match cells[y].mother
      case None => y
      case Some(m) => if m < y then AncestorAt(cells, m, d) else -1
  }

  /** `y` lies in the subtree of `x` (possibly `y == x`). */
  ghost predicate Desc(cells: seq<CellRec>, y: nat, x: nat) {
    && x < |cells| && y < |cells|
    && cells[y].depth >= cells[x].depth
    && AncestorAt(cells, y, cells[x].depth) == x
  }

  lemma {:induction false} AncestorFacts(cells: seq<CellRec>, maxDepth: int, root: Box, y: nat, d: int)
    requires Wf(cells, maxDepth, root) && y < |cells| && 0 <= d <= cells[y].depth
    ensures 0 <= AncestorAt(cells, y, d) <= y
    ensures cells[AncestorAt(cells, y, d)].depth == d
    decreases y
  {
    if cells[y].depth > d {
      assert MotherOk(cells, y);
      AncestorFacts(cells, maxDepth, root, cells[y].mother.value, d);
    }
  }

  lemma {:induction false} AncestorTrans(cells: seq<CellRec>, maxDepth: int, root: Box, y: nat, d1: int, d2: int)
    requires Wf(cells, maxDepth, root) && y < |cells| && 0 <= d2 <= d1 <= cells[y].depth
    ensures AncestorAt(cells, AncestorAt(cells, y, d1), d2) == AncestorAt(cells, y, d2)
    decreases y
  {
    AncestorFacts(cells, maxDepth, root, y, d1);
    if cells[y].depth > d1 {
      assert MotherOk(cells, y);
      AncestorTrans(cells, maxDepth, root, cells[y].mother.value, d1, d2);
    }
  }

  /** Ancestry only depends on depths and mothers, so it survives growth. */
  lemma {:induction false} AncestorStable(a: seq<CellRec>, b: seq<CellRec>, y: nat, d: int)
    requires Grows(a, b) && y < |a|
    ensures AncestorAt(b, y, d) == AncestorAt(a, y, d)
    decreases y
  {
    assert SameShape(a[y], b[y]);
    if a[y].depth > d && a[y].mother.Some? && a[y].mother.value < y {
      AncestorStable(a, b, a[y].mother.value, d);
    }
  }

  lemma DescStable(a: seq<CellRec>, b: seq<CellRec>, y: nat, x: nat)
    requires Grows(a, b) && y < |a| && x < |a|
    ensures Desc(b, y, x) <==> Desc(a, y, x)
  {
    assert SameShape(a[y], b[y]) && SameShape(a[x], b[x]);
    AncestorStable(a, b, y, a[x].depth);
  }

  /** Every cell lies in the subtree of the root. */
  lemma DescRoot(cells: seq<CellRec>, maxDepth: int, root: Box, y: nat)
    requires Wf(cells, maxDepth, root) && y < |cells|
    ensures Desc(cells, y, 0)
  {
    AncestorFacts(cells, maxDepth, root, y, 0);
    var a := AncestorAt(cells, y, 0);
    assert 0 < a ==> MotherOk(cells, a);
  }

  /** The children of `x` are in its subtree, and so is everything below them. */
  lemma DescChild(cells: seq<CellRec>, maxDepth: int, root: Box, y: nat, x: nat, k: nat)
    requires Wf(cells, maxDepth, root) && x < |cells| && HasChildren(cells[x]) && k < 8
    requires Desc(cells, y, cells[x].firstChild.value + k)
    ensures Desc(cells, y, x) && y != x
  {
    var f := cells[x].firstChild.value;
    var c := f + k;
    assert ChildrenOk(cells, x, maxDepth);
    assert cells[c].mother == Some(x);
    assert MotherOk(cells, c);
    AncestorTrans(cells, maxDepth, root, y, cells[c].depth, cells[x].depth);
  }

  /** The children of `x` lie in its subtree. */
  lemma ChildrenDesc(cells: seq<CellRec>, maxDepth: int, root: Box, x: nat)
    requires Wf(cells, maxDepth, root) && x < |cells| && HasChildren(cells[x])
    ensures forall c :: cells[x].firstChild.value <= c < cells[x].firstChild.value + 8 ==> Desc(cells, c, x)
  {
    var f := cells[x].firstChild.value;
    assert ChildrenOk(cells, x, maxDepth);
    forall c | f <= c < f + 8
      ensures Desc(cells, c, x)
    {
      assert Desc(cells, c, c);
      DescChild(cells, maxDepth, root, c, x, c - f);
    }
  }

  /** Which of the eight children of `x` the descendant `y` hangs under. */
  ghost function Branch(cells: seq<CellRec>, y: nat, x: nat): int
    requires x < |cells| && HasChildren(cells[x])
  {
    AncestorAt(cells, y, cells[x].depth + 1) - cells[x].firstChild.value
  }

  /** A strict descendant of `x` hangs under exactly one child of `x`. */
  lemma BranchFacts(cells: seq<CellRec>, maxDepth: int, root: Box, y: nat, x: nat)
    requires Wf(cells, maxDepth, root) && x < |cells| && HasChildren(cells[x])
    requires Desc(cells, y, x) && y != x
    ensures 0 <= Branch(cells, y, x) < 8
    ensures forall c :: cells[x].firstChild.value <= c < cells[x].firstChild.value + 8 ==>
              (Desc(cells, y, c) <==> c - cells[x].firstChild.value == Branch(cells, y, x))
  {
    var d := cells[x].depth;
    var f := cells[x].firstChild.value;
    assert cells[y].depth != d || AncestorAt(cells, y, d) == y;
    AncestorFacts(cells, maxDepth, root, y, d + 1);
    var a := AncestorAt(cells, y, d + 1);
    AncestorTrans(cells, maxDepth, root, y, d + 1, d);
    assert a != 0;
    assert MotherOk(cells, a);
    assert cells[a].mother == Some(x) by {
      assert AncestorAt(cells, a, d) == x;
    }
    assert ChildrenOk(cells, x, maxDepth);
    forall c | f <= c < f + 8
      ensures Desc(cells, y, c) <==> c == a
    {
      assert cells[c].mother == Some(x);
      assert MotherOk(cells, c);
    }
  }

  // ---------------------------------------------------------------- items

  /** All items stored anywhere in the arena. */
  ghost function Stored(cells: seq<CellRec>): multiset<V3> {
    if cells == [] then multiset{} else Stored(cells[..|cells| - 1]) + multiset(cells[|cells| - 1].items)
  }

  lemma {:induction false} FlatUpdate(cells: seq<CellRec>, i: nat, c: CellRec)
    requires i < |cells|
    ensures Stored(cells[i := c]) + multiset(cells[i].items) == Stored(cells) + multiset(c.items)
    decreases |cells|
  {
    var n := |cells| - 1;
    var u := cells[i := c];
    if i < n {
      assert u[..n] == cells[..n][i := c];
      assert u[n] == cells[n];
      FlatUpdate(cells[..n], i, c);
      calc {
        Stored(u) + multiset(cells[i].items);
        Stored(u[..n]) + multiset(u[n].items) + multiset(cells[i].items);
        Stored(cells[..n][i := c]) + multiset(cells[..n][i].items) + multiset(cells[n].items);
        Stored(cells[..n]) + multiset(c.items) + multiset(cells[n].items);
        Stored(cells) + multiset(c.items);
      }
    } else {
      assert cells[i := c][..n] == cells[..n];
    }
  }

  lemma {:induction false} FlatAppend(cells: seq<CellRec>, more: seq<CellRec>)
    ensures Stored(cells + more) == Stored(cells) + Stored(more)
    decreases |more|
  {
    if more == [] {
      assert cells + more == cells;
    } else {
      var n := |more| - 1;
      assert (cells + more)[..|cells + more| - 1] == cells + more[..n];
      FlatAppend(cells, more[..n]);
    }
  }

  // ---------------------------------------------------------------- queries

  /** `do_get_all_items`: the items of the leaves below `j`, children in slot order. */
  ghost function SubtreeItems(cells: seq<CellRec>, j: nat): seq<V3>
    decreases |cells| - j, 1, 0
  {
    if j >= |cells| then []
    else match cells[j].firstChild
      case None => cells[j].items
      case Some(f) => if j < f then ChildrenItems(cells, f, 8) else []
  }

  /** The items below the first `k` children of a block starting at `f`. */
  ghost function ChildrenItems(cells: seq<CellRec>, f: nat, k: nat): seq<V3>
    decreases |cells| - f, 2, k
  {
    if k == 0 || f + k > |cells| then []
    else ChildrenItems(cells, f, k - 1) + SubtreeItems(cells, f + k - 1)
  }

  /** `get_intersected_items`: like `SubtreeItems`, but only entering children whose
      box intersects `q`. */
  ghost function IntersectedItems(cells: seq<CellRec>, j: nat, q: Box): seq<V3>
    decreases |cells| - j, 1, 0
  {
    if j >= |cells| then []
    else match cells[j].firstChild
      case None => cells[j].items
      case Some(f) => if j < f then ChildrenIntersected(cells, f, 8, q) else []
  }

  ghost function ChildrenIntersected(cells: seq<CellRec>, f: nat, k: nat, q: Box): seq<V3>
    decreases |cells| - f, 2, k
  {
    if k == 0 || f + k > |cells| then []
    else
      ChildrenIntersected(cells, f, k - 1, q)
      + (if Intersect(cells[f + k - 1].box, q) then IntersectedItems(cells, f + k - 1, q) else [])
  }

  /** The depth of the deepest leaf below `j` (`do_get_actual_max_depth`). */
  ghost function MaxLeafDepth(cells: seq<CellRec>, j: nat): nat
    decreases |cells| - j, 1, 0
  {
    if j >= |cells| then 0
    else match cells[j].firstChild
      case None => cells[j].depth
      case Some(f) => if j < f then ChildrenMaxDepth(cells, f, 8) else 0
  }

  ghost function ChildrenMaxDepth(cells: seq<CellRec>, f: nat, k: nat): nat
    decreases |cells| - f, 2, k
  {
    if k == 0 || f + k > |cells| then 0
    else
      var a := ChildrenMaxDepth(cells, f, k - 1);
      var b := MaxLeafDepth(cells, f + k - 1);
      if b > a then b else a
  }

  /** The leaf reached from `j` by following `get_child_containing` towards `p`. */
  ghost function Descend(cells: seq<CellRec>, j: nat, p: V3): nat
    decreases |cells| - j
  {
    if j >= |cells| then j
    else match cells[j].firstChild
      case None => j
      case Some(f) =>
        var c := f + OctantIndex(cells[j].box, p);
        if j < c < |cells| then Descend(cells, c, p) else j
  }

  // ---------------------------------------------------------------- lemmas about the queries

  /** A strict descendant of `x` hangs under `x`'s children, so `x` has some. */
  lemma StrictDescHasChildren(cells: seq<CellRec>, maxDepth: int, root: Box, y: nat, x: nat)
    requires Wf(cells, maxDepth, root) && Desc(cells, y, x) && y != x
    ensures HasChildren(cells[x])
  {
    var d := cells[x].depth;
    assert cells[y].depth != d || AncestorAt(cells, y, d) == y;
    AncestorFacts(cells, maxDepth, root, y, d + 1);
    var a := AncestorAt(cells, y, d + 1);
    AncestorTrans(cells, maxDepth, root, y, d + 1, d);
    assert a != 0;
    assert MotherOk(cells, a);
    assert AncestorAt(cells, a, d) == cells[a].mother.value;
  }

  /** A cell that `do_subdivide` leaves alone is a settled leaf or sits at `maxDepth`,
      and either way nothing else lies below it. */
  lemma LeftAlone(cells: seq<CellRec>, maxDepth: int, maxItems: int, root: Box, j: nat)
    requires Wf(cells, maxDepth, root) && j < |cells|
    requires cells[j].depth >= maxDepth || (!HasChildren(cells[j]) && |cells[j].items| <= maxItems)
    ensures forall y :: 0 <= y < |cells| && Desc(cells, y, j) ==> y == j
    ensures CellSettled(cells[j], maxDepth, maxItems)
  {
    assert ChildrenOk(cells, j, maxDepth);
    forall y | 0 <= y < |cells| && Desc(cells, y, j)
      ensures y == j
    {
      if y != j {
        StrictDescHasChildren(cells, maxDepth, root, y, j);
      }
    }
  }

  /** Following `get_child_containing` from `j` ends in a leaf below `j`, and the
      leaf's box holds `p` whenever `j`'s box does. */
  lemma {:induction false} DescendLeaf(cells: seq<CellRec>, maxDepth: int, root: Box, j: nat, p: V3)
    requires Wf(cells, maxDepth, root) && j < |cells|
    ensures Descend(cells, j, p) < |cells|
    ensures !HasChildren(cells[Descend(cells, j, p)])
    ensures Desc(cells, Descend(cells, j, p), j)
    ensures Contains(cells[j].box, p) ==> Contains(cells[Descend(cells, j, p)].box, p)
    decreases |cells| - j
  {
    if HasChildren(cells[j]) {
      var f := cells[j].firstChild.value;
      var k := OctantIndex(cells[j].box, p);
      var c := f + k;
      assert ChildrenOk(cells, j, maxDepth);
      assert cells[c].box == Octant(cells[j].box, k);
      DescendLeaf(cells, maxDepth, root, c, p);
      DescChild(cells, maxDepth, root, Descend(cells, c, p), j, k);
      if Contains(cells[j].box, p) {
        OctantIndexContains(cells[j].box, p);
      }
    }
  }

  /** No cell is deeper than `maxDepth`, apart from a root that is already at or
      below it. */
  lemma DepthBound(cells: seq<CellRec>, maxDepth: int, root: Box, y: nat)
    requires Wf(cells, maxDepth, root) && y < |cells|
    ensures cells[y].depth <= (if maxDepth > 0 then maxDepth else 0)
  {
    if y > 0 {
      assert MotherOk(cells, y);
      assert ChildrenOk(cells, cells[y].mother.value, maxDepth);
    }
  }

  lemma {:induction false} MaxLeafDepthBound(cells: seq<CellRec>, maxDepth: int, root: Box, j: nat)
    requires Wf(cells, maxDepth, root)
    ensures MaxLeafDepth(cells, j) <= (if maxDepth > 0 then maxDepth else 0)
    decreases |cells| - j, 1, 0
  {
    if j < |cells| {
      DepthBound(cells, maxDepth, root, j);
      if HasChildren(cells[j]) && j < cells[j].firstChild.value {
        ChildrenMaxDepthBound(cells, maxDepth, root, cells[j].firstChild.value, 8);
      }
    }
  }

  lemma {:induction false} ChildrenMaxDepthBound(cells: seq<CellRec>, maxDepth: int, root: Box, f: nat, k: nat)
    requires Wf(cells, maxDepth, root)
    ensures ChildrenMaxDepth(cells, f, k) <= (if maxDepth > 0 then maxDepth else 0)
    decreases |cells| - f, 2, k
  {
    if k > 0 && f + k <= |cells| {
      ChildrenMaxDepthBound(cells, maxDepth, root, f, k - 1);
      MaxLeafDepthBound(cells, maxDepth, root, f + k - 1);
    }
  }

  /** Every leaf below `j` is at most `MaxLeafDepth(j)` deep. */
  lemma {:induction false} MaxLeafDepthIsMax(cells: seq<CellRec>, maxDepth: int, root: Box, j: nat, y: nat)
    requires Wf(cells, maxDepth, root) && Desc(cells, y, j) && !HasChildren(cells[y])
    ensures cells[y].depth <= MaxLeafDepth(cells, j)
    decreases |cells| - j
  {
    if y != j {
      StrictDescHasChildren(cells, maxDepth, root, y, j);
      BranchFacts(cells, maxDepth, root, y, j);
      var f := cells[j].firstChild.value;
      var c := f + Branch(cells, y, j);
      assert ChildrenOk(cells, j, maxDepth);
      MaxLeafDepthIsMax(cells, maxDepth, root, c, y);
      ChildrenMaxDepthHas(cells, f, 8, c);
    }
  }

  lemma {:induction false} ChildrenMaxDepthHas(cells: seq<CellRec>, f: nat, k: nat, c: nat)
    requires f <= c < f + k && f + k <= |cells|
    ensures MaxLeafDepth(cells, c) <= ChildrenMaxDepth(cells, f, k)
    decreases k
  {
    if c < f + k - 1 {
      ChildrenMaxDepthHas(cells, f, k - 1, c);
    }
  }

  /** `get_intersected_items` returns some of the items `do_get_all_items` would. */
  lemma {:induction false} IntersectedSub(cells: seq<CellRec>, j: nat, q: Box)
    ensures multiset(IntersectedItems(cells, j, q)) <= multiset(SubtreeItems(cells, j))
    decreases |cells| - j, 1, 0
  {
    if j < |cells| && HasChildren(cells[j]) && j < cells[j].firstChild.value {
      var f := cells[j].firstChild.value;
      ChildrenIntersectedSub(cells, f, 8, q);
      assert IntersectedItems(cells, j, q) == ChildrenIntersected(cells, f, 8, q);
      assert SubtreeItems(cells, j) == ChildrenItems(cells, f, 8);
    }
  }

  lemma {:induction false} ChildrenIntersectedSub(cells: seq<CellRec>, f: nat, k: nat, q: Box)
    ensures multiset(ChildrenIntersected(cells, f, k, q)) <= multiset(ChildrenItems(cells, f, k))
    decreases |cells| - f, 2, k, 1
  {
    if k > 0 && f + k <= |cells| {
      ChildrenIntersectedSubStep(cells, f, k, q);
    }
  }

  lemma {:induction false} ChildrenIntersectedSubStep(cells: seq<CellRec>, f: nat, k: nat, q: Box)
    requires 0 < k && f + k <= |cells|
    ensures multiset(ChildrenIntersected(cells, f, k, q)) <= multiset(ChildrenItems(cells, f, k))
    decreases |cells| - f, 2, k, 0
  {
    var c := f + k - 1;
    ChildrenIntersectedSub(cells, f, k - 1, q);
    IntersectedSub(cells, c, q);
    var a := ChildrenIntersected(cells, f, k - 1, q);
    var b := if Intersect(cells[c].box, q) then IntersectedItems(cells, c, q) else [];
    var a' := ChildrenItems(cells, f, k - 1);
    var b' := SubtreeItems(cells, c);
    assert ChildrenIntersected(cells, f, k, q) == a + b;
    assert ChildrenItems(cells, f, k) == a' + b';
    assert multiset(b) <= multiset(b');
    assert multiset(a + b) == multiset(a) + multiset(b);
    assert multiset(a' + b') == multiset(a') + multiset(b');
  }

  /** `b` lies inside `q`. */
  predicate Within(b: Box, q: Box) {
    && q.min.x <= b.min.x && b.max.x <= q.max.x
    && q.min.y <= b.min.y && b.max.y <= q.max.y
    && q.min.z <= b.min.z && b.max.z <= q.max.z
  }

  /** A query box that covers a non-empty cell collects everything below it. */
  lemma {:induction false} IntersectedAll(cells: seq<CellRec>, maxDepth: int, root: Box, j: nat, q: Box)
    requires Wf(cells, maxDepth, root) && j < |cells|
    requires !Empty(cells[j].box) && Within(cells[j].box, q)
    ensures IntersectedItems(cells, j, q) == SubtreeItems(cells, j)
    decreases |cells| - j, 1, 0
  {
    if HasChildren(cells[j]) {
      assert ChildrenOk(cells, j, maxDepth);
      ChildrenIntersectedAll(cells, maxDepth, root, j, 8, q);
    }
  }

  lemma {:induction false} ChildrenIntersectedAll(cells: seq<CellRec>, maxDepth: int, root: Box, j: nat, k: nat, q: Box)
    requires Wf(cells, maxDepth, root) && j < |cells| && HasChildren(cells[j]) && k <= 8
    requires !Empty(cells[j].box) && Within(cells[j].box, q)
    ensures ChildrenIntersected(cells, cells[j].firstChild.value, k, q) == ChildrenItems(cells, cells[j].firstChild.value, k)
    decreases |cells| - cells[j].firstChild.value, 2, k
  {
    var f := cells[j].firstChild.value;
    if k > 0 {
      var c := f + k - 1;
      ChildWithin(cells, maxDepth, root, j, k - 1, q);
      ChildrenIntersectedAll(cells, maxDepth, root, j, k - 1, q);
      IntersectedAll(cells, maxDepth, root, c, q);
      ChildrenIntersectedUnfold(cells, f, k, q);
      ChildrenItemsUnfold(cells, f, k);
    }
  }

  /** The children block of an internal cell lies after it, inside the arena, and
      exists only above `maxDepth`. */
  lemma ChildBlock(cells: seq<CellRec>, maxDepth: int, root: Box, j: nat)
    requires Wf(cells, maxDepth, root) && j < |cells| && HasChildren(cells[j])
    ensures j < cells[j].firstChild.value && cells[j].firstChild.value + 8 <= |cells|
    ensures cells[j].depth < maxDepth
  {
    assert ChildrenOk(cells, j, maxDepth);
  }

  /** Child `i` of an internal cell `j` points back to `j` and carries octant `i`. */
  lemma ChildOf(cells: seq<CellRec>, maxDepth: int, root: Box, j: nat, i: nat)
    requires Wf(cells, maxDepth, root) && j < |cells| && HasChildren(cells[j]) && i < 8
    ensures j < cells[j].firstChild.value + i < |cells| && cells[j].depth < maxDepth
    ensures var c := cells[j].firstChild.value + i;
      cells[c].mother == Some(j) && cells[c].box == Octant(cells[j].box, i)
      && cells[c].depth == cells[j].depth + 1
  {
    var c := cells[j].firstChild.value + i;
    assert ChildrenOk(cells, j, maxDepth);
    assert MotherOk(cells, c);
  }

  /** Child `i` of a non-empty cell inside `q` is itself non-empty and inside `q`. */
  lemma ChildWithin(cells: seq<CellRec>, maxDepth: int, root: Box, j: nat, i: nat, q: Box)
    requires Wf(cells, maxDepth, root) && j < |cells| && HasChildren(cells[j]) && i < 8
    requires !Empty(cells[j].box) && Within(cells[j].box, q)
    ensures cells[j].firstChild.value + i < |cells|
    ensures var c := cells[j].firstChild.value + i;
      !Empty(cells[c].box) && Within(cells[c].box, q) && Intersect(cells[c].box, q)
  {
    var c := cells[j].firstChild.value + i;
    assert ChildrenOk(cells, j, maxDepth);
    assert cells[c].box == Octant(cells[j].box, i);
    OctantWithin(cells[j].box, i);
  }

  lemma ChildrenItemsUnfold(cells: seq<CellRec>, f: nat, k: nat)
    requires 0 < k && f + k <= |cells|
    ensures ChildrenItems(cells, f, k) == ChildrenItems(cells, f, k - 1) + SubtreeItems(cells, f + k - 1)
  {
  }

  lemma ChildrenIntersectedUnfold(cells: seq<CellRec>, f: nat, k: nat, q: Box)
    requires 0 < k && f + k <= |cells|
    ensures ChildrenIntersected(cells, f, k, q)
         == ChildrenIntersected(cells, f, k - 1, q)
            + (if Intersect(cells[f + k - 1].box, q) then IntersectedItems(cells, f + k - 1, q) else [])
  {
  }

  lemma OctantWithin(b: Box, k: nat)
    requires k < 8 && !Empty(b)
    ensures !Empty(Octant(b, k)) && Within(Octant(b, k), b)
  {
  }

  // ---------------------------------------------------------------- all items

  /** The items stored in the subtree of `x` among the first `n` cells. */
  ghost function SubFlat(cells: seq<CellRec>, x: nat, n: nat): multiset<V3>
    requires n <= |cells|
  {
    if n == 0 then multiset{}
    else SubFlat(cells, x, n - 1) + (if Desc(cells, n - 1, x) then multiset(cells[n - 1].items) else multiset{})
  }

  /** The same, summed over the first `k` children of the block at `f`. */
  ghost function ChildrenSubFlat(cells: seq<CellRec>, f: nat, k: nat, n: nat): multiset<V3>
    requires n <= |cells|
  {
    if k == 0 then multiset{} else ChildrenSubFlat(cells, f, k - 1, n) + SubFlat(cells, f + k - 1, n)
  }

  ghost predicate InternalEmpty(cells: seq<CellRec>) {
    forall y :: 0 <= y < |cells| && HasChildren(cells[y]) ==> cells[y].items == []
  }

  lemma {:induction false} LeafSubFlat(cells: seq<CellRec>, maxDepth: int, root: Box, x: nat, n: nat)
    requires Wf(cells, maxDepth, root) && x < |cells| && !HasChildren(cells[x]) && n <= |cells|
    ensures SubFlat(cells, x, n) == if x < n then multiset(cells[x].items) else multiset{}
  {
    if n > 0 {
      LeafSubFlat(cells, maxDepth, root, x, n - 1);
      if n - 1 != x && Desc(cells, n - 1, x) {
        StrictDescHasChildren(cells, maxDepth, root, n - 1, x);
      }
      assert Desc(cells, x, x);
    }
  }

  /** Stepping one cell `y` forward adds its items to the children's sum exactly
      when it lies under one of the first `k` children. Whether it lies under child
      `c` is given as `under && c - f == branch`. */
  lemma {:induction false} ChildrenSubFlatStep(cells: seq<CellRec>, f: nat, k: nat, y: nat, under: bool, branch: int)
    requires y < |cells| && k <= 8
    requires forall c :: f <= c < f + 8 ==> (Desc(cells, y, c) <==> under && c - f == branch)
    ensures ChildrenSubFlat(cells, f, k, y + 1)
         == ChildrenSubFlat(cells, f, k, y)
            + (if under && 0 <= branch < k then multiset(cells[y].items) else multiset{})
  {
    if k > 0 {
      ChildrenSubFlatStep(cells, f, k - 1, y, under, branch);
      var items := multiset(cells[y].items);
      assert Desc(cells, y, f + k - 1) <==> under && branch == k - 1;
      SplitFlag(items, under && 0 <= branch < k - 1, Desc(cells, y, f + k - 1), under && 0 <= branch < k);
      ChildrenSubFlatGrow(cells, f, k, y,
        if under && 0 <= branch < k - 1 then items else multiset{},
        if Desc(cells, y, f + k - 1) then items else multiset{},
        if under && 0 <= branch < k then items else multiset{});
    }
  }

  /** The sum over `k` children grows by what the first `k - 1` gained plus what
      child `k - 1` gained. */
  lemma ChildrenSubFlatGrow(cells: seq<CellRec>, f: nat, k: nat, y: nat,
                            before: multiset<V3>, here: multiset<V3>, after: multiset<V3>)
    requires 0 < k && y < |cells|
    requires ChildrenSubFlat(cells, f, k - 1, y + 1) == ChildrenSubFlat(cells, f, k - 1, y) + before
    requires here == if Desc(cells, y, f + k - 1) then multiset(cells[y].items) else multiset{}
    requires after == before + here
    ensures ChildrenSubFlat(cells, f, k, y + 1) == ChildrenSubFlat(cells, f, k, y) + after
  {
    var c := f + k - 1;
    ChildrenSubFlatUnfold(cells, f, k, y + 1);
    ChildrenSubFlatUnfold(cells, f, k, y);
    assert SubFlat(cells, c, y + 1) == SubFlat(cells, c, y) + here;
    Regroup(ChildrenSubFlat(cells, f, k - 1, y + 1), ChildrenSubFlat(cells, f, k - 1, y),
            SubFlat(cells, c, y + 1), SubFlat(cells, c, y), before, here);
  }

  /** A flag that is the disjoint union of two flags selects the union of what they select. */
  lemma SplitFlag(items: multiset<V3>, b1: bool, b2: bool, b: bool)
    requires b == (b1 || b2) && !(b1 && b2)
    ensures (if b then items else multiset{}) == (if b1 then items else multiset{}) + (if b2 then items else multiset{})
  {
  }

  lemma Regroup(a: multiset<V3>, a0: multiset<V3>, b: multiset<V3>, b0: multiset<V3>, p: multiset<V3>, q: multiset<V3>)
    requires a == a0 + p && b == b0 + q
    ensures a + b == (a0 + b0) + (p + q)
  {
  }

  /** Over all eight children, a cell counts exactly when it lies strictly below `x`. */
  lemma AllChildrenSubFlatStep(cells: seq<CellRec>, maxDepth: int, root: Box, x: nat, y: nat)
    requires Wf(cells, maxDepth, root) && x < |cells| && HasChildren(cells[x]) && y < |cells|
    ensures ChildrenSubFlat(cells, cells[x].firstChild.value, 8, y + 1)
         == ChildrenSubFlat(cells, cells[x].firstChild.value, 8, y)
            + (if Desc(cells, y, x) && y != x then multiset(cells[y].items) else multiset{})
  {
    var f := cells[x].firstChild.value;
    var under := Desc(cells, y, x) && y != x;
    var branch := if under then Branch(cells, y, x) else 0;
    if under {
      BranchFacts(cells, maxDepth, root, y, x);
    } else {
      forall c | f <= c < f + 8
        ensures !Desc(cells, y, c)
      {
        if Desc(cells, y, c) {
          DescChild(cells, maxDepth, root, y, x, c - f);
        }
      }
    }
    ChildrenSubFlatStep(cells, f, 8, y, under, branch);
  }

  lemma {:induction false} InternalSubFlat(cells: seq<CellRec>, maxDepth: int, root: Box, x: nat, n: nat)
    requires Wf(cells, maxDepth, root) && x < |cells| && HasChildren(cells[x]) && cells[x].items == [] && n <= |cells|
    ensures SubFlat(cells, x, n) == ChildrenSubFlat(cells, cells[x].firstChild.value, 8, n)
  {
    if n == 0 {
      ChildrenSubFlatZero(cells, cells[x].firstChild.value, 8);
    } else {
      var y := n - 1;
      InternalSubFlat(cells, maxDepth, root, x, y);
      AllChildrenSubFlatStep(cells, maxDepth, root, x, y);
      var m := if Desc(cells, y, x) then multiset(cells[y].items) else multiset{};
      assert SubFlat(cells, x, n) == SubFlat(cells, x, n - 1) + m;
      assert y == x ==> m == multiset{};
    }
  }

  lemma {:induction false} ChildrenSubFlatZero(cells: seq<CellRec>, f: nat, k: nat)
    ensures ChildrenSubFlat(cells, f, k, 0) == multiset{}
  {
    if k > 0 {
      ChildrenSubFlatZero(cells, f, k - 1);
    }
  }

  /** `do_get_all_items` on `x` returns every item stored in `x`'s subtree, once. */
  lemma {:induction false} SubtreeItemsFlat(cells: seq<CellRec>, maxDepth: int, root: Box, x: nat)
    requires Wf(cells, maxDepth, root) && InternalEmpty(cells) && x < |cells|
    ensures multiset(SubtreeItems(cells, x)) == SubFlat(cells, x, |cells|)
    decreases |cells| - x, 1
  {
    if HasChildren(cells[x]) {
      var f := cells[x].firstChild.value;
      assert ChildrenOk(cells, x, maxDepth);
      ChildrenItemsFlat(cells, maxDepth, root, f, 8);
      InternalSubFlat(cells, maxDepth, root, x, |cells|);
    } else {
      LeafSubFlat(cells, maxDepth, root, x, |cells|);
    }
  }

  lemma {:induction false} ChildrenItemsFlat(cells: seq<CellRec>, maxDepth: int, root: Box, f: nat, k: nat)
    requires Wf(cells, maxDepth, root) && InternalEmpty(cells) && 0 < f && f + k <= |cells|
    ensures multiset(ChildrenItems(cells, f, k)) == ChildrenSubFlat(cells, f, k, |cells|)
    decreases |cells| - f, 2, k
  {
    forall c | f <= c < f + k
      ensures multiset(SubtreeItems(cells, c)) == SubFlat(cells, c, |cells|)
    {
      SubtreeItemsFlat(cells, maxDepth, root, c);
    }
    ChildrenItemsSum(cells, f, k);
  }

  /** Once each child's items are its subtree's stored items, so are the children's. */
  lemma {:induction false} ChildrenItemsSum(cells: seq<CellRec>, f: nat, k: nat)
    requires f + k <= |cells|
    requires forall c :: f <= c < f + k ==> multiset(SubtreeItems(cells, c)) == SubFlat(cells, c, |cells|)
    ensures multiset(ChildrenItems(cells, f, k)) == ChildrenSubFlat(cells, f, k, |cells|)
  {
    if k > 0 {
      var c := f + k - 1;
      assert multiset(SubtreeItems(cells, c)) == SubFlat(cells, c, |cells|);
      ChildrenItemsSum(cells, f, k - 1);
      ChildrenItemsStep(cells, f, k);
    }
  }

  /** One more child: its items join the children's items on both sides. */
  lemma ChildrenItemsStep(cells: seq<CellRec>, f: nat, k: nat)
    requires 0 < k && f + k <= |cells|
    requires multiset(ChildrenItems(cells, f, k - 1)) == ChildrenSubFlat(cells, f, k - 1, |cells|)
    requires multiset(SubtreeItems(cells, f + k - 1)) == SubFlat(cells, f + k - 1, |cells|)
    ensures multiset(ChildrenItems(cells, f, k)) == ChildrenSubFlat(cells, f, k, |cells|)
  {
    var c := f + k - 1;
    assert ChildrenItems(cells, f, k) == ChildrenItems(cells, f, k - 1) + SubtreeItems(cells, c);
    assert multiset(ChildrenItems(cells, f, k))
        == multiset(ChildrenItems(cells, f, k - 1)) + multiset(SubtreeItems(cells, c));
    ChildrenSubFlatUnfold(cells, f, k, |cells|);
  }

  lemma ChildrenSubFlatUnfold(cells: seq<CellRec>, f: nat, k: nat, n: nat)
    requires 0 < k && n <= |cells|
    ensures ChildrenSubFlat(cells, f, k, n) == ChildrenSubFlat(cells, f, k - 1, n) + SubFlat(cells, f + k - 1, n)
  {
  }

  lemma {:induction false} SubFlatRoot(cells: seq<CellRec>, maxDepth: int, root: Box, n: nat)
    requires Wf(cells, maxDepth, root) && n <= |cells|
    ensures SubFlat(cells, 0, n) == Stored(cells[..n])
  {
    if n > 0 {
      SubFlatRoot(cells, maxDepth, root, n - 1);
      DescRoot(cells, maxDepth, root, n - 1);
      assert cells[..n][..n - 1] == cells[..n - 1];
    }
  }

  /** The items collected from the root are exactly the items stored in the tree. */
  lemma AllItemsFlat(cells: seq<CellRec>, maxDepth: int, root: Box)
    requires Wf(cells, maxDepth, root) && InternalEmpty(cells)
    ensures multiset(SubtreeItems(cells, 0)) == Stored(cells)
  {
    SubtreeItemsFlat(cells, maxDepth, root, 0);
    SubFlatRoot(cells, maxDepth, root, |cells|);
    assert cells[..|cells|] == cells;
  }

  // ---------------------------------------------------------------- subdivision steps

  /** `a` and `b` differ at most in the items the cells hold. */
  ghost predicate SameButItems(a: seq<CellRec>, b: seq<CellRec>) {
    |a| == |b| &&
    forall y :: 0 <= y < |a| ==>
      a[y].depth == b[y].depth && a[y].mother == b[y].mother && a[y].box == b[y].box && a[y].firstChild == b[y].firstChild
  }

  lemma WfItems(a: seq<CellRec>, b: seq<CellRec>, maxDepth: int, root: Box)
    requires Wf(a, maxDepth, root) && SameButItems(a, b)
    ensures Wf(b, maxDepth, root) && Grows(a, b)
  {
    forall y | 0 < y < |b|
      ensures MotherOk(b, y)
    {
      assert MotherOk(a, y);
    }
    forall y | 0 <= y < |b|
      ensures ChildrenOk(b, y, maxDepth)
    {
      assert ChildrenOk(a, y, maxDepth);
    }
  }

  lemma GrowsTrans(a: seq<CellRec>, b: seq<CellRec>, c: seq<CellRec>)
    requires Grows(a, b) && Grows(b, c)
    ensures Grows(a, c)
  {
    forall y | 0 <= y < |a|
      ensures SameShape(a[y], c[y])
    {
      assert SameShape(a[y], b[y]) && SameShape(b[y], c[y]);
    }
  }

  /** The eight empty cells `do_subdivide` creates under cell `j`. */
  function NewChildren(c: CellRec, j: nat): (r: seq<CellRec>)
    ensures |r| == 8
  {
    seq(8, k requires 0 <= k < 8 => CellRec(c.depth + 1, Some(j), Octant(c.box, k), None, []))
  }

  /** Giving a leaf above `maxDepth` its eight children keeps the arena a
      well-formed octree, stores no new items, and puts the new cells under `j`. */
  lemma SpawnFacts(cells: seq<CellRec>, maxDepth: int, root: Box, j: nat)
    requires Wf(cells, maxDepth, root) && j < |cells| && !HasChildren(cells[j]) && cells[j].depth < maxDepth
    ensures var s := cells[j := cells[j].(firstChild := Some(|cells|))] + NewChildren(cells[j], j);
      && Wf(s, maxDepth, root)
      && Grows(cells, s)
      && Stored(s) == Stored(cells)
      && (Placed(cells) ==> Placed(s))
      && (forall y :: |cells| <= y < |s| ==> Desc(s, y, j))
  {
    var s := cells[j := cells[j].(firstChild := Some(|cells|))] + NewChildren(cells[j], j);
    SpawnMothers(cells, maxDepth, root, j, s);
    SpawnChildren(cells, maxDepth, root, j, s);
    SpawnStored(cells, j, s);
    SpawnDesc(cells, j, s);
  }

  lemma SpawnMothers(cells: seq<CellRec>, maxDepth: int, root: Box, j: nat, s: seq<CellRec>)
    requires Wf(cells, maxDepth, root) && j < |cells| && !HasChildren(cells[j])
    requires s == cells[j := cells[j].(firstChild := Some(|cells|))] + NewChildren(cells[j], j)
    ensures forall y :: 0 < y < |s| ==> MotherOk(s, y)
  {
    var n := |cells|;
    var kids := NewChildren(cells[j], j);
    forall y | 0 < y < |s|
      ensures MotherOk(s, y)
    {
      if y < n {
        assert MotherOk(cells, y);
        var m := cells[y].mother.value;
        assert s[m].firstChild == cells[m].firstChild;
      } else {
        assert s[y] == kids[y - n];
      }
    }
  }

  lemma SpawnChildren(cells: seq<CellRec>, maxDepth: int, root: Box, j: nat, s: seq<CellRec>)
    requires Wf(cells, maxDepth, root) && j < |cells| && !HasChildren(cells[j]) && cells[j].depth < maxDepth
    requires s == cells[j := cells[j].(firstChild := Some(|cells|))] + NewChildren(cells[j], j)
    ensures forall y :: 0 <= y < |s| ==> ChildrenOk(s, y, maxDepth)
  {
    var n := |cells|;
    var kids := NewChildren(cells[j], j);
    forall y | 0 <= y < |s|
      ensures ChildrenOk(s, y, maxDepth)
    {
      if y < n && y != j {
        assert ChildrenOk(cells, y, maxDepth);
      } else if y == j {
        forall c | n <= c < n + 8
          ensures s[c].mother == Some(j) && s[c].box == Octant(s[j].box, c - n)
        {
          assert s[c] == kids[c - n];
        }
      } else {
        assert s[y] == kids[y - n];
      }
    }
  }

  lemma SpawnStored(cells: seq<CellRec>, j: nat, s: seq<CellRec>)
    requires j < |cells|
    requires s == cells[j := cells[j].(firstChild := Some(|cells|))] + NewChildren(cells[j], j)
    ensures Stored(s) == Stored(cells)
  {
    var u := cells[j := cells[j].(firstChild := Some(|cells|))];
    var kids := NewChildren(cells[j], j);
    FlatUpdate(cells, j, cells[j].(firstChild := Some(|cells|)));
    assert u[j].items == cells[j].items;
    MultisetCancel(Stored(u), Stored(cells), multiset(cells[j].items));
    FlatAppend(u, kids);
    FlatEmpty(kids);
  }

  lemma SpawnDesc(cells: seq<CellRec>, j: nat, s: seq<CellRec>)
    requires j < |cells|
    requires s == cells[j := cells[j].(firstChild := Some(|cells|))] + NewChildren(cells[j], j)
    ensures forall y :: |cells| <= y < |s| ==> Desc(s, y, j)
  {
    var n := |cells|;
    var kids := NewChildren(cells[j], j);
    forall y | n <= y < |s|
      ensures Desc(s, y, j)
    {
      assert s[y] == kids[y - n];
      assert AncestorAt(s, y, s[j].depth) == AncestorAt(s, j, s[j].depth);
    }
  }

  lemma MultisetCancel(a: multiset<V3>, b: multiset<V3>, c: multiset<V3>)
    requires a + c == b + c
    ensures a == b
  {
    assert forall x :: a[x] == (a + c)[x] - c[x];
  }

  lemma {:induction false} FlatEmpty(cells: seq<CellRec>)
    requires forall y :: 0 <= y < |cells| ==> cells[y].items == []
    ensures Stored(cells) == multiset{}
  {
    if cells != [] {
      FlatEmpty(cells[..|cells| - 1]);
    }
  }

  /** `y` lies below one of the first `i` children of `j`. */
  ghost predicate InBranches(cells: seq<CellRec>, y: nat, j: nat, i: int) {
    && j < |cells| && HasChildren(cells[j])
    && Desc(cells, y, j) && y != j && 0 <= Branch(cells, y, j) < i
  }

  lemma InBranchesStable(a: seq<CellRec>, b: seq<CellRec>, y: nat, j: nat, i: int)
    requires Grows(a, b) && y < |a| && j < |a| && HasChildren(a[j])
    ensures InBranches(b, y, j, i) <==> InBranches(a, y, j, i)
  {
    assert SameShape(a[j], b[j]);
    DescStable(a, b, y, j);
    AncestorStable(a, b, y, a[j].depth + 1);
  }

  /** What the loop over the children of `j` has achieved after `i` children,
      relative to the arena `s` it started from. */
  ghost predicate BranchInv(s: seq<CellRec>, t: seq<CellRec>, j: nat, i: int, maxDepth: int, maxItems: int) {
    && Grows(s, t)
    && (forall y :: 0 <= y < |s| && !InBranches(s, y, j, i) ==> t[y] == s[y])
    && (forall y :: |s| <= y < |t| ==> InBranches(t, y, j, i))
    && (forall y :: 0 <= y < |t| && InBranches(t, y, j, i) ==> CellSettled(t[y], maxDepth, maxItems))
  }

  /** Subdividing child `i` of `j` (from `t` to `u`) extends the loop's achievement
      to the first `i + 1` children. */
  lemma BranchStep(s: seq<CellRec>, t: seq<CellRec>, u: seq<CellRec>, maxDepth: int, maxItems: int, root: Box,
                    j: nat, i: nat, c: nat)
    requires Wf(s, maxDepth, root) && Wf(t, maxDepth, root) && Wf(u, maxDepth, root)
    requires j < |s| && HasChildren(s[j]) && i < 8 && c == s[j].firstChild.value + i
    requires BranchInv(s, t, j, i, maxDepth, maxItems) && Grows(t, u)
    requires forall y :: 0 <= y < |t| && !Desc(t, y, c) ==> u[y] == t[y]
    requires forall y :: |t| <= y < |u| ==> Desc(u, y, c)
    requires forall y :: 0 <= y < |u| && Desc(u, y, c) ==> CellSettled(u[y], maxDepth, maxItems)
    ensures BranchInv(s, u, j, i + 1, maxDepth, maxItems)
  {
    var f := s[j].firstChild.value;
    var k := i + 1;
    assert ChildrenOk(s, j, maxDepth);
    assert Grows(s, t);
    assert SameShape(s[j], t[j]) && SameShape(t[j], u[j]);
    GrowsTrans(s, t, u);
    // In `t` and `u`, lying below child `c` is the same as lying in branch `i`.
    forall y | 0 <= y < |u| && Desc(u, y, c)
      ensures InBranches(u, y, j, k) && !InBranches(u, y, j, i)
    {
      DescChild(u, maxDepth, root, y, j, i);
      BranchFacts(u, maxDepth, root, y, j);
    }
    forall y | 0 <= y < |u| && InBranches(u, y, j, k) && !InBranches(u, y, j, i)
      ensures Desc(u, y, c)
    {
      BranchFacts(u, maxDepth, root, y, j);
    }
    forall y | 0 <= y < |t|
      ensures Desc(u, y, c) <==> Desc(t, y, c)
      ensures InBranches(u, y, j, i) <==> InBranches(t, y, j, i)
      ensures InBranches(u, y, j, k) <==> InBranches(t, y, j, k)
    {
      DescStable(t, u, y, c);
      InBranchesStable(t, u, y, j, i);
      InBranchesStable(t, u, y, j, k);
    }
    forall y | 0 <= y < |s|
      ensures InBranches(t, y, j, i) <==> InBranches(s, y, j, i)
      ensures InBranches(t, y, j, k) <==> InBranches(s, y, j, k)
    {
      InBranchesStable(s, t, y, j, i);
      InBranchesStable(s, t, y, j, k);
    }
    forall y | 0 <= y < |s| && !InBranches(s, y, j, k)
      ensures u[y] == s[y]
    {
      assert !InBranches(s, y, j, i);
      assert !Desc(t, y, c);
    }
    forall y | |s| <= y < |u|
      ensures InBranches(u, y, j, k)
    {
      if y < |t| {
        assert InBranches(t, y, j, i);
        assert InBranches(u, y, j, i);
        BranchFacts(u, maxDepth, root, y, j);
      }
    }
    forall y | 0 <= y < |u| && InBranches(u, y, j, k)
      ensures CellSettled(u[y], maxDepth, maxItems)
    {
      if !Desc(u, y, c) {
        assert InBranches(u, y, j, i);
        assert y < |t|;
        assert InBranches(t, y, j, i);
        assert u[y] == t[y];
      }
    }
  }

  /** Once all eight children of `j` are subdivided, the whole subtree of `j` is
      settled, the cells outside it are as they were before `j` was split, and
      every cell created since lies below `j`. */
  lemma SubdivideDone(pre: seq<CellRec>, s: seq<CellRec>, u: seq<CellRec>, maxDepth: int, maxItems: int, root: Box, j: nat)
    requires Wf(pre, maxDepth, root) && Wf(s, maxDepth, root) && Wf(u, maxDepth, root)
    requires Grows(pre, s)
    requires j < |pre| && HasChildren(s[j]) && s[j].items == []
    requires forall y :: 0 <= y < |pre| && !Desc(pre, y, j) ==> s[y] == pre[y]
    requires forall y :: |pre| <= y < |s| ==> Desc(s, y, j)
    requires BranchInv(s, u, j, 8, maxDepth, maxItems)
    ensures Grows(pre, u)
    ensures forall y :: 0 <= y < |pre| && !Desc(pre, y, j) ==> u[y] == pre[y]
    ensures forall y :: |pre| <= y < |u| ==> Desc(u, y, j)
    ensures forall y :: 0 <= y < |u| && Desc(u, y, j) ==> CellSettled(u[y], maxDepth, maxItems)
  {
    GrowsTrans(pre, s, u);
    assert SameShape(s[j], u[j]);
    forall y | 0 <= y < |pre| && !Desc(pre, y, j)
      ensures u[y] == pre[y]
    {
      DescStable(pre, s, y, j);
      assert !InBranches(s, y, j, 8);
    }
    forall y | |pre| <= y < |u|
      ensures Desc(u, y, j)
    {
      if y < |s| {
        DescStable(s, u, y, j);
      } else {
        assert InBranches(u, y, j, 8);
      }
    }
    forall y | 0 <= y < |u| && Desc(u, y, j)
      ensures CellSettled(u[y], maxDepth, maxItems)
    {
      if y == j {
        assert !InBranches(s, j, j, 8);
        assert u[j] == s[j];
      } else {
        BranchFacts(u, maxDepth, root, y, j);
        assert InBranches(u, y, j, 8);
      }
    }
  }

  /** Moving one item of the split cell `j` into the child whose octant holds it
      keeps the shape, keeps every point inside its cell's box, and adds the item
      to the arena's contents (it is removed from `j` later, all at once). */
  lemma DispatchStep(s: seq<CellRec>, t: seq<CellRec>, maxDepth: int, root: Box, j: nat, item: V3, c: nat)
    requires Wf(s, maxDepth, root) && SameButItems(s, t) && Placed(t)
    requires j < |s| && HasChildren(s[j]) && Contains(s[j].box, item)
    requires c == s[j].firstChild.value + OctantIndex(s[j].box, item)
    ensures c < |t|
    ensures var u := t[c := t[c].(items := t[c].items + [item])];
      && SameButItems(s, u) && Wf(u, maxDepth, root) && Placed(u)
      && Stored(u) == Stored(t) + multiset{item}
  {
    var f := s[j].firstChild.value;
    var k := OctantIndex(s[j].box, item);
    assert ChildrenOk(s, j, maxDepth);
    assert s[c].box == Octant(s[j].box, k);
    OctantIndexContains(s[j].box, item);
    var u := t[c := t[c].(items := t[c].items + [item])];
    FlatUpdate(t, c, u[c]);
    assert multiset(u[c].items) == multiset(t[c].items) + multiset{item};
    MultisetCancel(Stored(u), Stored(t) + multiset{item}, multiset(t[c].items));
    WfItems(s, u, maxDepth, root);
  }

  /** Emptying the split cell `j` after its items went down. */
  lemma DispatchClear(s: seq<CellRec>, t: seq<CellRec>, maxDepth: int, root: Box, j: nat)
    requires Wf(s, maxDepth, root) && SameButItems(s, t) && Placed(t) && j < |s|
    requires Stored(t) == Stored(s) + multiset(s[j].items) && t[j] == s[j]
    ensures var u := t[j := t[j].(items := [])];
      && SameButItems(s, u) && Wf(u, maxDepth, root) && Placed(u)
      && Stored(u) == Stored(s)
  {
    var u := t[j := t[j].(items := [])];
    FlatUpdate(t, j, u[j]);
    MultisetCancel(Stored(u), Stored(s), multiset(s[j].items));
    WfItems(s, u, maxDepth, root);
  }

  // ---------------------------------------------------------------- where items lie

  /** Every item listed below `j` lies in `j`'s box. */
  lemma {:induction false} SubtreeInBox(cells: seq<CellRec>, maxDepth: int, root: Box, j: nat, p: V3)
    requires Wf(cells, maxDepth, root) && Placed(cells) && j < |cells| && p in SubtreeItems(cells, j)
    ensures Contains(cells[j].box, p)
    decreases |cells| - j, 1, 0
  {
    if HasChildren(cells[j]) {
      assert ChildrenOk(cells, j, maxDepth);
      ChildrenInBox(cells, maxDepth, root, j, 8, p);
    }
  }

  lemma {:induction false} ChildrenInBox(cells: seq<CellRec>, maxDepth: int, root: Box, j: nat, k: nat, p: V3)
    requires Wf(cells, maxDepth, root) && Placed(cells) && j < |cells| && HasChildren(cells[j]) && k <= 8
    requires p in ChildrenItems(cells, cells[j].firstChild.value, k)
    ensures Contains(cells[j].box, p)
    decreases |cells| - cells[j].firstChild.value, 2, k
  {
    var f := cells[j].firstChild.value;
    assert ChildrenOk(cells, j, maxDepth);
    var c := f + k - 1;
    if p in ChildrenItems(cells, f, k - 1) {
      ChildrenInBox(cells, maxDepth, root, j, k - 1, p);
    } else {
      SubtreeInBox(cells, maxDepth, root, c, p);
      assert cells[c].box == Octant(cells[j].box, k - 1);
      OctantsCover(cells[j].box, p);
    }
  }

  /** `get_intersected_items` misses no item that lies in the query box. */
  lemma {:induction false} IntersectedComplete(cells: seq<CellRec>, maxDepth: int, root: Box, j: nat, q: Box, p: V3)
    requires Wf(cells, maxDepth, root) && Placed(cells) && j < |cells|
    requires p in SubtreeItems(cells, j) && Contains(q, p)
    ensures p in IntersectedItems(cells, j, q)
    decreases |cells| - j, 1, 0
  {
    if HasChildren(cells[j]) {
      assert ChildrenOk(cells, j, maxDepth);
      ChildrenIntersectedComplete(cells, maxDepth, root, j, 8, q, p);
    }
  }

  lemma {:induction false} ChildrenIntersectedComplete(cells: seq<CellRec>, maxDepth: int, root: Box, j: nat, k: nat, q: Box, p: V3)
    requires Wf(cells, maxDepth, root) && Placed(cells) && j < |cells| && HasChildren(cells[j]) && k <= 8
    requires p in ChildrenItems(cells, cells[j].firstChild.value, k) && Contains(q, p)
    ensures p in ChildrenIntersected(cells, cells[j].firstChild.value, k, q)
    decreases |cells| - cells[j].firstChild.value, 2, k
  {
    var f := cells[j].firstChild.value;
    assert ChildrenOk(cells, j, maxDepth);
    var c := f + k - 1;
    if p in ChildrenItems(cells, f, k - 1) {
      ChildrenIntersectedComplete(cells, maxDepth, root, j, k - 1, q, p);
    } else {
      SubtreeInBox(cells, maxDepth, root, c, p);
      assert Intersect(cells[c].box, q);
      IntersectedComplete(cells, maxDepth, root, c, q, p);
    }
  }

  /** Over a settled tree, a box query from the root returns exactly the stored
      items that lie in the query box, plus possibly some that do not, and never
      more copies than are stored. */
  lemma QueryBox(cells: seq<CellRec>, maxDepth: int, root: Box, q: Box)
    requires Wf(cells, maxDepth, root) && Placed(cells) && InternalEmpty(cells)
    ensures multiset(IntersectedItems(cells, 0, q)) <= Stored(cells)
    ensures forall p :: p in Stored(cells) && Contains(q, p) ==> p in IntersectedItems(cells, 0, q)
  {
    AllItemsFlat(cells, maxDepth, root);
    IntersectedSub(cells, 0, q);
    forall p | p in Stored(cells) && Contains(q, p)
      ensures p in IntersectedItems(cells, 0, q)
    {
      assert p in multiset(SubtreeItems(cells, 0));
      IntersectedComplete(cells, maxDepth, root, 0, q, p);
    }
  }

  // ---------------------------------------------------------------- nearby items

  /** The items `getItemsNear` is meant to report for `pt`: those of the leaf the
      descent for `pt` reaches or, when that leaf is empty and `checkMother` is set,
      every item below the leaf's mother. */
  ghost function NearItems(cells: seq<CellRec>, root: Box, pt: V3, checkMother: bool): seq<V3> {
    var c := Descend(cells, 0, pt);
    if !Contains(root, pt) || c >= |cells| then []
    else if |cells[c].items| > 0 then cells[c].items
    else if checkMother && cells[c].mother.Some? && cells[c].mother.value < |cells| then SubtreeItems(cells, cells[c].mother.value)
    else []
  }

  /** The cell whose box `NearItems` draws from. */
  ghost function NearCell(cells: seq<CellRec>, pt: V3, checkMother: bool): nat {
    var c := Descend(cells, 0, pt);
    if c < |cells| && |cells[c].items| == 0 && checkMother && cells[c].mother.Some? then cells[c].mother.value else c
  }

  /** Everything `getItemsNear` reports lies in one cell box that also holds `pt`. */
  lemma NearItemsLocal(cells: seq<CellRec>, maxDepth: int, root: Box, pt: V3, checkMother: bool)
    requires Wf(cells, maxDepth, root) && Placed(cells) && Contains(root, pt)
    ensures NearCell(cells, pt, checkMother) < |cells|
    ensures Contains(cells[NearCell(cells, pt, checkMother)].box, pt)
    ensures forall p :: p in NearItems(cells, root, pt, checkMother) ==> Contains(cells[NearCell(cells, pt, checkMother)].box, p)
  {
    DescendLeaf(cells, maxDepth, root, 0, pt);
    var c := Descend(cells, 0, pt);
    var a := NearCell(cells, pt, checkMother);
    if a != c {
      assert MotherOk(cells, c);
      assert ChildrenOk(cells, a, maxDepth);
      var f := cells[a].firstChild.value;
      assert cells[c].box == Octant(cells[a].box, c - f);
      OctantsCover(cells[a].box, pt);
      forall p | p in NearItems(cells, root, pt, checkMother)
        ensures Contains(cells[a].box, p)
      {
        SubtreeInBox(cells, maxDepth, root, a, p);
      }
    }
  }

  // ---------------------------------------------------------------- terminal cells

  /** The leaves below `j`, in the order `do_visit_terminal_children` visits them. */
  ghost function Leaves(cells: seq<CellRec>, j: nat): seq<nat>
    decreases |cells| - j, 1, 0
  {
    if j >= |cells| then []
    else match cells[j].firstChild
      case None => [j]
      case Some(f) => if j < f then ChildrenLeaves(cells, f, 8) else []
  }

  ghost function ChildrenLeaves(cells: seq<CellRec>, f: nat, k: nat): seq<nat>
    decreases |cells| - f, 2, k
  {
    if k == 0 || f + k > |cells| then []
    else ChildrenLeaves(cells, f, k - 1) + Leaves(cells, f + k - 1)
  }

  /** The visit reaches exactly the leaves below `j`. */
  lemma {:induction false} LeavesExact(cells: seq<CellRec>, maxDepth: int, root: Box, j: nat, y: nat)
    requires Wf(cells, maxDepth, root) && j < |cells|
    ensures y in Leaves(cells, j) <==> y < |cells| && !HasChildren(cells[y]) && Desc(cells, y, j)
    decreases |cells| - j, 1, 0
  {
    if HasChildren(cells[j]) {
      var f := cells[j].firstChild.value;
      assert ChildrenOk(cells, j, maxDepth);
      ChildrenLeavesExact(cells, maxDepth, root, j, 8, y);
      if y < |cells| && !HasChildren(cells[y]) && Desc(cells, y, j) {
        BranchFacts(cells, maxDepth, root, y, j);
        assert Desc(cells, y, f + Branch(cells, y, j));
      }
      if y in ChildrenLeaves(cells, f, 8) {
        var c :| f <= c < f + 8 && Desc(cells, y, c);
        DescChild(cells, maxDepth, root, y, j, c - f);
      }
    } else if y < |cells| && Desc(cells, y, j) && y != j {
      StrictDescHasChildren(cells, maxDepth, root, y, j);
    }
  }

  lemma {:induction false} ChildrenLeavesExact(cells: seq<CellRec>, maxDepth: int, root: Box, j: nat, k: nat, y: nat)
    requires Wf(cells, maxDepth, root) && j < |cells| && HasChildren(cells[j]) && k <= 8
    ensures y in ChildrenLeaves(cells, cells[j].firstChild.value, k) <==>
              y < |cells| && !HasChildren(cells[y]) && exists c :: cells[j].firstChild.value <= c < cells[j].firstChild.value + k && Desc(cells, y, c)
    decreases |cells| - cells[j].firstChild.value, 2, k
  {
    var f := cells[j].firstChild.value;
    assert ChildrenOk(cells, j, maxDepth);
    if k > 0 {
      ChildrenLeavesExact(cells, maxDepth, root, j, k - 1, y);
      LeavesExact(cells, maxDepth, root, f + k - 1, y);
    }
  }

  /** Appending points to a cell whose box holds them keeps the shape and the
      placement, and adds the point to the arena's contents. */
  lemma StoreItems(cells: seq<CellRec>, maxDepth: int, root: Box, c: nat, xs: seq<V3>)
    requires Wf(cells, maxDepth, root) && Placed(cells) && c < |cells|
    requires forall p :: p in xs ==> Contains(cells[c].box, p)
    ensures var u := cells[c := cells[c].(items := cells[c].items + xs)];
      && Wf(u, maxDepth, root) && Placed(u) && Grows(cells, u)
      && Stored(u) == Stored(cells) + multiset(xs)
  {
    var u := cells[c := cells[c].(items := cells[c].items + xs)];
    FlatUpdate(cells, c, u[c]);
    assert multiset(u[c].items) == multiset(cells[c].items) + multiset(xs);
    MultisetCancel(Stored(u), Stored(cells) + multiset(xs), multiset(cells[c].items));
    WfItems(cells, u, maxDepth, root);
  }

  /** Refining cell `c` of an arena settled everywhere else settles all of it. */
  lemma SettledAfterRefine(t: seq<CellRec>, u: seq<CellRec>, maxDepth: int, maxItems: int, c: nat)
    requires c < |t| && Grows(t, u)
    requires forall y :: 0 <= y < |t| && y != c ==> CellSettled(t[y], maxDepth, maxItems)
    requires forall y :: 0 <= y < |t| && !Desc(t, y, c) ==> u[y] == t[y]
    requires forall y :: |t| <= y < |u| ==> Desc(u, y, c)
    requires forall y :: 0 <= y < |u| && Desc(u, y, c) ==> CellSettled(u[y], maxDepth, maxItems)
    ensures Settled(u, maxDepth, maxItems)
  {
    assert Desc(t, c, c);
    forall y | 0 <= y < |u|
      ensures CellSettled(u[y], maxDepth, maxItems)
    {
      if y < |t| {
        DescStable(t, u, y, c);
      }
    }
  }
}
