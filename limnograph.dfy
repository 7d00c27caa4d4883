/**
 River synthesis over a terrain heightmap: pick river sources among the
 high interior cells, then trace each source downhill, one steepest-descent
 step at a time, marking the cells it crosses as RIVER until it reaches the
 far edge of the map, an existing river or source, or the lowest height on
 the map.
 */
module Limnograph {
  import opened Builtins
  import opened Grid

  /** node_type. The source stores the codes 0..4 (NONE, SOURCE, RIVER,
      LAKE, VOID) in that order; NONE is called Plain here. */
  datatype NodeType = Plain | Source | River | Lake | Void

  /** dir, without its NONE member (see the walk). Each direction is the
      (row offset, column offset) the source adds to a position. */
  datatype Dir = North | South | East | West | NE | NW | SE | SW {
    function Offset(): (int, int) {
      match this
      case North => (0, -1)
      case South => (0, 1)
      case East => (1, 0)
      case West => (-1, 0)
      case NE => (1, -1)
      case NW => (-1, -1)
      case SE => (1, 1)
      case SW => (-1, 1)
    }
  }

  /** The key order of the neighbour-height dictionary built by the walk. */
  const Compass: seq<Dir> := [North, South, East, West, NE, NW, SE, SW]

  /** A walk position. It may leave the grid on the low side: the source
      indexes with it as a Python subscript, so -1 means the last row. */
  type Pos = (int, int)

  function Move(p: Pos, d: Dir): Pos {
    (p.0 + d.Offset().0, p.1 + d.Offset().1)
  }

  /** `q` is one of the eight cells around `p`. */
  predicate IsNeighbour(p: Pos, q: Pos) {
    p != q && -1 <= q.0 - p.0 <= 1 && -1 <= q.1 - p.1 <= 1
  }

  /** The compass holds every direction once, each direction steps to a
      neighbour, and every neighbour is reached by some direction. */
  lemma {:induction false} CompassIsNeighbourhood(p: Pos)
    ensures |Compass| == 8 && Distinct(Compass)
    ensures forall d: Dir :: d in Compass && IsNeighbour(p, Move(p, d))
    ensures forall q :: IsNeighbour(p, q) ==> exists d :: d in Compass && Move(p, d) == q
  {
    forall d: Dir ensures d in Compass && IsNeighbour(p, Move(p, d)) {
      match d
      case North => case South => case East => case West =>
      case NE => case NW => case SE => case SW =>
    }
    forall q | IsNeighbour(p, q) ensures exists d :: d in Compass && Move(p, d) == q {
      var dr, dc := q.0 - p.0, q.1 - p.1;
      var d :=
        if dr == 0 then (if dc == -1 then North else South)
        else if dr == 1 then (if dc == 0 then East else if dc == -1 then NE else SE)
        else (if dc == 0 then West else if dc == -1 then NW else SW);
      assert Move(p, d) == q;
    }
  }

  /** map_point: the record of one pixel. */
  datatype MapPoint = MapPoint(height: int, aridity: int, pointType: NodeType, row: int, col: int)

  /** The entry for `d` is no larger than any entry of `hs`. */
  predicate IsLowest(hs: map<Dir, int>, d: Dir) {
    d in hs && forall t :: t in hs ==> hs[d] <= hs[t]
  }

  /** lowest_dir: the keys `ds`, in order, whose height is no larger than
      any height in the dictionary. */
  function MinimalDirs(hs: map<Dir, int>, ds: seq<Dir>): (r: seq<Dir>)
    ensures forall d :: d in r <==> d in ds && IsLowest(hs, d)
  {
    if ds == [] then []
    else (if IsLowest(hs, ds[0]) then [ds[0]] else []) + MinimalDirs(hs, ds[1..])
  }

  /** A key of least height among `ds`. */
  function Lowest(hs: map<Dir, int>, ds: seq<Dir>): (d: Dir)
    requires ds != [] && forall t :: t in ds ==> t in hs
    ensures d in ds && forall t :: t in ds ==> hs[d] <= hs[t]
  {
    if |ds| == 1 then ds[0]
    else
      var rest := Lowest(hs, ds[1..]);
      assert forall t :: t in ds ==> t == ds[0] || t in ds[1..];
      if hs[ds[0]] <= hs[rest] then ds[0] else rest
  }

  /** With all eight neighbour heights known, some direction is minimal, so
      the walk always has a step to take. */
  lemma {:induction false} MinimalDirsNonEmpty(hs: map<Dir, int>)
    requires hs.Keys == set d | d in Compass
    ensures MinimalDirs(hs, Compass) != []
  {
    var d := Lowest(hs, Compass);
    assert IsLowest(hs, d);
  }

  /** One round of generate_sources' choice loop on the bookkeeping: the
      spots still available are the eligible ones not yet chosen, and taking
      out the spot at index `i` keeps that true with the spot chosen. */
  lemma {:induction false} TakeSpot<T>(available: seq<T>, i: nat, eligible: set<T>, chosen: set<T>)
    requires Distinct(available) && i < |available|
    requires forall p :: p in available <==> p in eligible && p !in chosen
    ensures available[i] in eligible && available[i] !in chosen
    ensures |chosen + {available[i]}| == |chosen| + 1
    ensures |Remove(available, available[i])| == |available| - 1
    ensures Distinct(Remove(available, available[i]))
    ensures forall p :: p in Remove(available, available[i]) ==> p in eligible && p !in chosen + {available[i]}
    ensures forall p :: p in eligible && p !in chosen + {available[i]} ==> p in Remove(available, available[i])
  {
    RemoveDistinct(available, i);
  }

  /** How one downhill walk ended. The source only prints which branch it
      took, or propagates the IndexError of a failed neighbour lookup. */
  datatype WalkEnd = ReachedEdge | JoinedRiver | ReachedMinimum | IndexError

  /** No walk in `ends` raised IndexError. */
  predicate NoAbort(ends: seq<WalkEnd>) {
    forall i :: 0 <= i < |ends| ==> ends[i] != IndexError
  }

  /** generate_rivers' outcome: `ok` exactly when no walk raised
      IndexError, and otherwise it was the last walk run, since the
      exception ends the pass. */
  predicate AbortedAtLast(ok: bool, ends: seq<WalkEnd>) {
    if ok then NoAbort(ends)
    else |ends| > 0 && NoAbort(ends[..|ends| - 1]) && ends[|ends| - 1] == IndexError
  }

  /** generate_rivers' pass so far: the point types when it began, and
      the walks it has run, in order: for each, the SOURCE cell it started
      from, how it ended, the positions it went through and the cells it
      marked RIVER. */
  datatype WalkLog = WalkLog(entry: map<Cell, NodeType>, starts: seq<Cell>, ends: seq<WalkEnd>,
                             paths: seq<seq<Pos>>, marks: seq<seq<Cell>>)
  {
    /** The log with one more walk appended. */
    function Add(start: Cell, end: WalkEnd, path: seq<Pos>, marked: seq<Cell>): WalkLog {
      WalkLog(entry, starts + [start], ends + [end], paths + [path], marks + [marked])
    }
  }

  /** No cell was marked by two walks. */
  predicate MarksDisjoint(marks: seq<seq<Cell>>) {
    forall i, j, m :: 0 <= i < j < |marks| && m in marks[j] ==> m !in marks[i]
  }

  /** A fresh rows-by-cols grid of node types, every one NONE. */
  method PlainKinds(rows: nat, cols: nat) returns (t: array2<NodeType>)
    ensures fresh(t) && t.Length0 == rows && t.Length1 == cols
    ensures forall i, j :: 0 <= i < rows && 0 <= j < cols ==> t[i, j] == Plain
  {
    t := new NodeType[rows, cols];
    var r := 0;
    while r < rows
      invariant 0 <= r <= rows
      invariant forall i, j :: 0 <= i < r && 0 <= j < cols ==> t[i, j] == Plain
    {
      var c := 0;
      while c < cols
        invariant 0 <= c <= cols
        invariant forall i, j :: 0 <= i < r && 0 <= j < cols ==> t[i, j] == Plain
        invariant forall j :: 0 <= j < c ==> t[r, j] == Plain
      {
        t[r, c] := Plain;
        c := c + 1;
      }
      r := r + 1;
    }
  }

  /** limnograph: the terrain grid. `height` and `kind` are the height and
      point_type fields of the grid of map_points; the row and col fields of
      a map_point are its indices in them. Heights are fixed once the grid
      is built, so they are a constant; point types are updated in place. */
  class Limnograph {
    const height: seq<seq<int>>
    const kind: array2<NodeType>
    const minHeight: int
    const maxHeight: int

    function Rows(): nat { |height| }
    function Cols(): nat { if height == [] then 0 else |height[0]| }

    predicate InGrid(r: int, c: int) {
      0 <= r < Rows() && 0 <= c < Cols()
    }

    /** A non-empty rectangle of heights, and a point type for each. */
    ghost predicate Shape() {
      && Rows() > 0 && Cols() > 0
      && (forall r :: 0 <= r < Rows() ==> |height[r]| == Cols())
      && kind.Length0 == Rows() && kind.Length1 == Cols()
    }

    /** Heights are 8-bit samples, and minHeight and maxHeight are the
        least and greatest of them. */
    ghost predicate HeightsValid()
      requires Shape()
    {
      && (forall r, c {:trigger height[r][c]} :: InGrid(r, c) ==> 0 <= height[r][c] <= 255)
      && (forall r, c {:trigger height[r][c]} :: InGrid(r, c) ==> minHeight <= height[r][c] <= maxHeight)
      && (exists r, c {:trigger height[r][c]} :: InGrid(r, c) && height[r][c] == minHeight)
      && (exists r, c {:trigger height[r][c]} :: InGrid(r, c) && height[r][c] == maxHeight)
    }

    /** Every SOURCE cell lies in rows 2 .. Rows() - 2 and columns
        2 .. Cols() - 2: two cells clear of the top and left edges, one
        clear of the bottom and right. */
    ghost predicate SourcesInterior()
      requires Shape()
      reads kind
    {
      forall r, c {:trigger kind[r, c]} :: InGrid(r, c) && kind[r, c] == Source ==> 1 < r < Rows() - 1 && 1 < c < Cols() - 1
    }

    ghost predicate Valid()
      reads kind
    {
      Shape() && HeightsValid() && SourcesInterior()
    }

    /** The map_point at row r, column c. */
    function Point(r: int, c: int): MapPoint
      requires Shape() && InGrid(r, c)
      reads kind
    {
      MapPoint(height[r][c], 0, kind[r, c], r, c)
    }

    ghost function SourceCells(): set<Cell>
      requires Shape()
      reads kind
    {
      set r, c {:trigger kind[r, c]} | 0 <= r < Rows() && 0 <= c < Cols() && kind[r, c] == Source :: (r, c)
    }

    /** Builds the grid from the blurred greyscale image (process_images):
        one map_point per pixel, all of type NONE, then the global minimum
        and maximum height over all of them. */
    constructor (pixels: seq<seq<int>>)
      requires |pixels| > 0 && |pixels[0]| > 0
      requires forall i :: 0 <= i < |pixels| ==> |pixels[i]| == |pixels[0]|
      requires forall i, j :: 0 <= i < |pixels| && 0 <= j < |pixels[i]| ==> 0 <= pixels[i][j] <= 255
      ensures Valid()
      ensures height == pixels
      ensures forall r, c {:trigger kind[r, c]} :: InGrid(r, c) ==> kind[r, c] == Plain
      ensures minHeight == MinOf(Flatten(pixels)) && maxHeight == MaxOf(Flatten(pixels))
      ensures fresh(kind)
    {
      var rows, cols := |pixels|, |pixels[0]|;
      var t := PlainKinds(rows, cols);
      GridMinMax(pixels);
      var lo := MinOf(Flatten(pixels));
      var hi := MaxOf(Flatten(pixels));
      height, kind := pixels, t;
      minHeight, maxHeight := lo, hi;
      new;
      var i0, j0 :| 0 <= i0 < rows && 0 <= j0 < |pixels[i0]| && pixels[i0][j0] == lo;
      assert InGrid(i0, j0) && height[i0][j0] == minHeight;
      var i1, j1 :| 0 <= i1 < rows && 0 <= j1 < |pixels[i1]| && pixels[i1][j1] == hi;
      assert InGrid(i1, j1) && height[i1][j1] == maxHeight;
    }

    /** `matrix[r][c].point_type = t`, the one kind of in-place write the
        generator makes. */
    method SetType(r: int, c: int, t: NodeType)
      requires Valid() && InGrid(r, c)
      requires t == Source ==> 1 < r < Rows() - 1 && 1 < c < Cols() - 1
      modifies kind
      ensures Valid()
      ensures forall i, j {:trigger kind[i, j]} :: InGrid(i, j) ==> kind[i, j] == if (i, j) == (r, c) then t else old(kind[i, j])
    {
      kind[r, c] := t;
    }

    /** The grid cell a position names under Python indexing, if any. */
    function CellOf(p: Pos): (cell: Option<Cell>)
      ensures cell.Some? ==> InGrid(cell.value.0, cell.value.1)
    {
      var r := PyIndex(p.0, Rows());
      var c := PyIndex(p.1, Cols());
      if r.Some? && c.Some? then Some((r.value, c.value)) else None
    }

    function HeightAt(p: Pos): Option<int>
      requires Shape()
    {
      match CellOf(p)
      case None => None
      case Some(cell) => Some(height[cell.0][cell.1])
    }

    /** The rows p.0 - 1 .. p.0 + 1 and the columns p.1 - 1 .. p.1 + 1 are
        all subscripts Python accepts. */
    predicate LookupsInRange(p: Pos) {
      -(Rows() as int) <= p.0 - 1 && p.0 + 1 < Rows() &&
      -(Cols() as int) <= p.1 - 1 && p.1 + 1 < Cols()
    }

    /** Building dir_heights raises IndexError exactly when one of the
        eight neighbour lookups does, and that is exactly when `p` is
        outside LookupsInRange. */
    lemma {:induction false} LookupsInRangeExactly(p: Pos)
      requires Shape()
      ensures LookupsInRange(p) <==> forall d: Dir :: HeightAt(Move(p, d)).Some?
    {
      if !LookupsInRange(p) {
        var d :=
          if p.0 + 1 >= Rows() then East
          else if p.0 - 1 < -(Rows() as int) then West
          else if p.1 + 1 >= Cols() then South
          else North;
        assert HeightAt(Move(p, d)).None?;
      }
    }

    /** dir_heights: the height of the neighbour in each of the eight
        directions, or None when one of the eight lookups raises
        IndexError. */
    function NeighbourHeights(p: Pos): (hs: Option<map<Dir, int>>)
      requires Shape()
      ensures hs.Some? <==> LookupsInRange(p)
      ensures hs.Some? <==> forall d: Dir :: HeightAt(Move(p, d)).Some?
      ensures hs.Some? ==> forall d: Dir :: d in hs.value && HeightAt(Move(p, d)) == Some(hs.value[d])
    {
      LookupsInRangeExactly(p);
      CompassIsNeighbourhood(p);
      if LookupsInRange(p) then
        Some(map d: Dir | d in Compass :: HeightAt(Move(p, d)).value)
      else None
    }

    /** `q` is one of the eight neighbours of `p`, and no neighbour of `p`
        is lower than `q`. */
    ghost predicate IsDescentStep(p: Pos, q: Pos)
      requires Shape()
    {
      var hs := NeighbourHeights(p);
      && hs.Some?
      && IsNeighbour(p, q)
      && HeightAt(q).Some?
      && forall d :: d in Compass ==> HeightAt(q).value <= hs.value[d]
    }

    /** A cell generate_sources may choose: its height lies in
        [maxHeight - maxHeight // k, maxHeight], and 1 < row < Rows() - 1
        and 1 < col < Cols() - 1: two cells clear of the top and left
        edges, one clear of the bottom and right. */
    predicate IsEligible(r: int, c: int, k: int)
      requires Shape() && k != 0
    {
      && InGrid(r, c)
      && maxHeight - FloorDiv(maxHeight, k) <= height[r][c] <= maxHeight
      && 1 < r < Rows() - 1
      && 1 < c < Cols() - 1
    }

    ghost function EligibleCells(k: int): set<Cell>
      requires Shape() && k != 0
    {
      set r, c {:trigger IsEligible(r, c, k)} | 0 <= r < Rows() && 0 <= c < Cols() && IsEligible(r, c, k) :: (r, c)
    }

    /** The scan of generate_sources: the eligible cells, row by row. */
    method CollectEligible(k: int) returns (spots: seq<Cell>)
      requires Shape() && k != 0
      ensures spots == RowMajor(EligibleCells(k), Cols(), Rows())
      ensures Distinct(spots)
      ensures forall p :: p in spots <==> p in EligibleCells(k)
    {
      ghost var E := EligibleCells(k);
      spots := [];
      var r := 0;
      while r < Rows()
        invariant 0 <= r <= Rows()
        invariant spots == RowMajor(E, Cols(), r)
      {
        var c := 0;
        while c < Cols()
          invariant 0 <= c <= Cols()
          invariant spots == RowMajor(E, Cols(), r) + RowSegment(E, r, c)
        {
          if IsEligible(r, c, k) {
            assert (r, c) in E;
            spots := spots + [(r, c)];
          } else {
            assert (r, c) !in E;
          }
          c := c + 1;
        }
        r := r + 1;
      }
      RowMajorSpec(E, Cols(), Rows());
      RowMajorMembers(E, Cols(), Rows());
    }

    /** generate_sources: marks min(sourceCount, number of eligible cells)
        distinct eligible cells as SOURCE, chosen at random; nothing else
        changes. */
    method GenerateSources(sourceCount: int, k: int) returns (ghost chosen: set<Cell>)
      requires Valid() && k != 0
      modifies kind
      ensures Valid()
      ensures chosen <= EligibleCells(k)
      ensures forall p {:trigger p in chosen} :: p in chosen ==> IsEligible(p.0, p.1, k)
      ensures |chosen| == if sourceCount <= 0 then 0
                           else if sourceCount < |EligibleCells(k)| then sourceCount
                           else |EligibleCells(k)|
      ensures forall r, c {:trigger kind[r, c]} :: InGrid(r, c) ==> kind[r, c] == if (r, c) in chosen then Source else old(kind[r, c])
    {
      var available := CollectEligible(k);
      ghost var E := EligibleCells(k);
      DistinctCard(available);
      assert (set p | p in available) == E;
      chosen := PlaceSources(available, sourceCount, E);
    }

    /** The choice loop of generate_sources over the list of eligible
        spots: each round takes a random spot out of the list and marks it
        SOURCE, until `sourceCount` spots are taken or none are left. */
    method PlaceSources(spots: seq<Cell>, sourceCount: int, ghost E: set<Cell>) returns (ghost chosen: set<Cell>)
      requires Valid() && Distinct(spots)
      requires forall p :: p in spots <==> p in E
      requires |spots| == |E|
      requires forall p {:trigger p in E} :: p in E ==> InGrid(p.0, p.1) && 1 < p.0 < Rows() - 1 && 1 < p.1 < Cols() - 1
      modifies kind
      ensures Valid()
      ensures chosen <= E
      ensures |chosen| == if sourceCount <= 0 then 0 else if sourceCount < |E| then sourceCount else |E|
      ensures forall r, c :: InGrid(r, c) ==> kind[r, c] == if (r, c) in chosen then Source else old(kind[r, c])
    {
      var generated := 0;
      var available := spots;
      chosen := {};
      while generated < sourceCount && |available| > 0
        invariant Valid()
        invariant Distinct(available)
        invariant forall p :: p in available <==> p in E && p !in chosen
        invariant chosen <= E
        invariant generated == |chosen|
        invariant generated + |available| == |E|
        invariant generated == 0 || generated <= sourceCount
        invariant forall r, c {:trigger kind[r, c]} :: InGrid(r, c) ==> kind[r, c] == if (r, c) in chosen then Source else old(kind[r, c])
        decreases |available|
      {
        var i :| 0 <= i < |available|;
        var newSource := available[i];
        TakeSpot(available, i, E, chosen);
        available := Remove(available, newSource);
        generated := generated + 1;
        SetType(newSource.0, newSource.1, Source);
        chosen := chosen + {newSource};
      }
    }

    /** A list of distinct grid cells that misses some grid cell has fewer
        than Rows() * Cols() entries, and stays distinct with that cell
        appended. */
    lemma {:induction false} MissingCellBound(cells: seq<Cell>, spare: Cell)
      requires Distinct(cells) && forall m :: m in cells ==> InGrid(m.0, m.1)
      requires InGrid(spare.0, spare.1) && spare !in cells
      ensures |cells| < Rows() * Cols()
      ensures Distinct(cells + [spare])
    {
      var S := set m | m in cells;
      DistinctCard(cells);
      assert spare !in S;
      CellsBound(S + {spare}, Rows(), Cols());
      var longer := cells + [spare];
      forall i, j | 0 <= i < j < |longer| ensures longer[i] != longer[j] {
        if j == |cells| {
          assert longer[i] == cells[i] && cells[i] in cells;
        } else {
          assert longer[i] == cells[i] && longer[j] == cells[j];
        }
      }
    }

    /** One step of generate_river's walk, which changes nothing: look up
        the eight neighbour heights of `ind` (None when a lookup raises
        IndexError), keep the directions of least height (lowest_dir), and
        move one step in the only one or in one chosen at random. Also
        returns the least neighbour height, dir_heights[lowest_dir[0]]. */
    method DescentStep(ind: Pos) returns (step: Option<(Pos, int)>)
      requires Shape()
      ensures step.None? <==> !LookupsInRange(ind)
      ensures step.Some? ==> IsDescentStep(ind, step.value.0) && step.value.1 == HeightAt(step.value.0).value
    {
      var lookup := NeighbourHeights(ind);
      if lookup.None? {
        return None;
      }
      var dirHeights := lookup.value;
      var lowest := MinimalDirs(dirHeights, Compass);
      MinimalDirsNonEmpty(dirHeights);
      var d: Dir;
      if |lowest| == 1 {
        d := lowest[0];
      } else {
        assert lowest[0] in lowest;
        d :| d in lowest;
      }
      var next := Move(ind, d);
      LowestIsDescent(ind, dirHeights, d);
      assert IsLowest(dirHeights, lowest[0]);
      return Some((next, dirHeights[lowest[0]]));
    }

    /** Stepping in a direction of least neighbour height is a descent step,
        to a cell whose height is that least height. */
    lemma {:induction false} LowestIsDescent(p: Pos, hs: map<Dir, int>, d: Dir)
      requires Shape() && NeighbourHeights(p) == Some(hs) && IsLowest(hs, d)
      ensures IsDescentStep(p, Move(p, d)) && HeightAt(Move(p, d)) == Some(hs[d])
    {
      CompassIsNeighbourhood(p);
    }

    /** Every step of `path` is a steepest-descent step (stated step by
        step from the end; DescentPathSteps gives the quantified form). */
    ghost predicate DescentPath(path: seq<Pos>)
      requires Shape()
      decreases |path|
    {
      |path| <= 1 ||
      (DescentPath(path[..|path| - 1]) && IsDescentStep(path[|path| - 2], path[|path| - 1]))
    }

    lemma {:induction false} DescentPathSteps(path: seq<Pos>)
      requires Shape()
      ensures DescentPath(path) <==> forall i :: 0 <= i < |path| - 1 ==> IsDescentStep(path[i], path[i + 1])
      decreases |path|
    {
      if |path| > 1 {
        var init := path[..|path| - 1];
        DescentPathSteps(init);
        assert forall i :: 0 <= i < |init| ==> init[i] == path[i];
      }
    }

    /** The cells of the positions a walk stepped to after its start, in
        order (positions outside the grid contribute nothing). */
    function Trail(path: seq<Pos>): seq<Cell>
      decreases |path|
    {
      if |path| <= 1 then []
      else
        Trail(path[..|path| - 1]) +
        match CellOf(path[|path| - 1])
        case Some(cell) => [cell]
        case None => []
    }

    /** A cell is on the trail exactly when some step after the start lands
        on it. */
    lemma {:induction false} TrailMembers(path: seq<Pos>)
      ensures forall m :: m in Trail(path) <==> exists i :: 0 < i < |path| && CellOf(path[i]) == Some(m)
      decreases |path|
    {
      if |path| > 1 {
        var init := path[..|path| - 1];
        TrailMembers(init);
        forall m ensures m in Trail(path) <==> exists i :: 0 < i < |path| && CellOf(path[i]) == Some(m) {
          if m in Trail(init) {
            var i :| 0 < i < |init| && CellOf(init[i]) == Some(m);
            assert path[i] == init[i];
          }
          if exists i :: 0 < i < |path| && CellOf(path[i]) == Some(m) {
            var i :| 0 < i < |path| && CellOf(path[i]) == Some(m);
            if i < |init| {
              assert init[i] == path[i];
            }
          }
        }
      }
    }

    /** Every position after the start of `path` is a grid cell short of
        the far row and column (stated from the end; ShortOfFarEdgesAll
        gives the quantified form). */
    predicate ShortOfFarEdges(path: seq<Pos>)
      decreases |path|
    {
      |path| <= 1 ||
      (ShortOfFarEdges(path[..|path| - 1]) && ShortOfFarEdge(path[|path| - 1]))
    }

    predicate ShortOfFarEdge(p: Pos) {
      p.0 < Rows() - 1 && p.1 < Cols() - 1 && CellOf(p).Some?
    }

    lemma {:induction false} ShortOfFarEdgesAll(path: seq<Pos>)
      ensures ShortOfFarEdges(path) <==> forall i :: 0 < i < |path| ==> ShortOfFarEdge(path[i])
      decreases |path|
    {
      if |path| > 1 {
        var init := path[..|path| - 1];
        ShortOfFarEdgesAll(init);
        assert forall i :: 0 <= i < |init| ==> init[i] == path[i];
      }
    }

    /** Appending a position to a walk extends its trail by that cell. */
    lemma {:induction false} WalkSnoc(path: seq<Pos>, q: Pos)
      requires Shape() && |path| >= 1
      ensures (path + [q])[..|path|] == path
      ensures DescentPath(path + [q]) <==> DescentPath(path) && IsDescentStep(path[|path| - 1], q)
      ensures ShortOfFarEdges(path + [q]) <==> ShortOfFarEdges(path) && ShortOfFarEdge(q)
      ensures CellOf(q).Some? ==> Trail(path + [q]) == Trail(path) + [CellOf(q).value]
    {
      assert (path + [q])[..|path|] == path;
    }

    /** Why a walk that stepped to `q` ends there: `q` is on or past the far
        row or column, or it is a grid cell short of them that is already
        RIVER or SOURCE, or failing that one of the lowest height on the
        map. */
    ghost predicate StopsAt(q: Pos, end: WalkEnd)
      requires Shape()
      reads kind
    {
      match end
      case ReachedEdge => q.0 >= Rows() - 1 || q.1 >= Cols() - 1
      case JoinedRiver =>
        ShortOfFarEdge(q) &&
        var cell := CellOf(q).value;
        kind[cell.0, cell.1] == River || kind[cell.0, cell.1] == Source
      case ReachedMinimum =>
        ShortOfFarEdge(q) &&
        var cell := CellOf(q).value;
        kind[cell.0, cell.1] != River && kind[cell.0, cell.1] != Source &&
        height[cell.0][cell.1] == minHeight
      case IndexError => false
    }

    /** The checks generate_river makes after each step to `q`, whose height
        is `least`, the least neighbour height of the previous position:
        the far edge, the lake guard, an existing river or source, the
        minimum height. None means the walk goes on and marks `q`. */
    method StopCheck(q: Pos, least: int) returns (stop: Option<WalkEnd>)
      requires Shape() && HeightAt(q) == Some(least)
      ensures stop.Some? ==> stop.value != IndexError && StopsAt(q, stop.value)
      ensures stop.None? ==>
                ShortOfFarEdge(q) &&
                var cell := CellOf(q).value;
                kind[cell.0, cell.1] != River && kind[cell.0, cell.1] != Source &&
                height[cell.0][cell.1] != minHeight
    {
      if q.0 >= Rows() - 1 || q.1 >= Cols() - 1 {
        return Some(ReachedEdge);
      }
      var cell := CellOf(q).value;
      if least > height[cell.0][cell.1] {
        // The lake branch: the cell stepped to has exactly the least
        // neighbour height, so this guard never holds.
        assert false;
      }
      if kind[cell.0, cell.1] == River || kind[cell.0, cell.1] == Source {
        return Some(JoinedRiver);
      } else if height[cell.0][cell.1] == minHeight {
        return Some(ReachedMinimum);
      }
      return None;
    }

    /** The walk so far: it starts at `start`, every step is a
        steepest-descent step to a grid cell short of the far row and
        column, and `marked` lists the cells stepped to, in order, none
        twice and none of the map's least height. */
    ghost predicate Walk(start: Pos, path: seq<Pos>, marked: seq<Cell>)
      requires Shape()
    {
      && |path| >= 1 && path[0] == start
      && DescentPath(path) && ShortOfFarEdges(path)
      && marked == Trail(path) && Distinct(marked)
      && forall m :: m in marked ==> InGrid(m.0, m.1) && height[m.0][m.1] != minHeight
    }

    /** A descent step from the end of a walk extends it; when the cell
        stepped to is short of the far edges, not yet marked and above the
        least height, marking it keeps the walk, and the marks so far miss
        at least that cell of the grid. */
    lemma {:induction false} WalkOn(start: Pos, path: seq<Pos>, marked: seq<Cell>, q: Pos)
      requires Shape() && Walk(start, path, marked) && IsDescentStep(path[|path| - 1], q)
      ensures (path + [q])[..|path|] == path && (path + [q])[0] == start && DescentPath(path + [q])
      ensures ShortOfFarEdge(q) && CellOf(q).value !in marked && HeightAt(q) != Some(minHeight) ==>
                Walk(start, path + [q], marked + [CellOf(q).value]) && |marked| < Rows() * Cols()
    {
      WalkSnoc(path, q);
      if ShortOfFarEdge(q) && CellOf(q).value !in marked && HeightAt(q) != Some(minHeight) {
        MissingCellBound(marked, CellOf(q).value);
      }
    }

    /** One turn of generate_river's loop up to the marking: the
        steepest-descent step from `ind`, the end of the walk so far, to
        `q`, and the checks on `q`. `end` is Some(IndexError) when the step
        raised IndexError, another Some when a check stopped the walk at
        `q`, and None when `q` is to be marked. */
    method Advance(ghost start: Pos, ghost path: seq<Pos>, ghost marked: seq<Cell>, ind: Pos)
      returns (end: Option<WalkEnd>, q: Pos)
      requires Shape() && Walk(start, path, marked) && ind == path[|path| - 1]
      requires forall m {:trigger m in marked} :: m in marked ==> InGrid(m.0, m.1) && kind[m.0, m.1] == River
      ensures end == Some(IndexError) <==> !LookupsInRange(ind)
      ensures end != Some(IndexError) ==>
                IsDescentStep(ind, q) && (path + [q])[..|path|] == path && DescentPath(path + [q])
      ensures end.Some? && end.value != IndexError ==> StopsAt(q, end.value)
      ensures end.None? ==>
                var cell := CellOf(q).value;
                Walk(start, path + [q], marked + [cell]) && |marked| < Rows() * Cols() &&
                InGrid(cell.0, cell.1) && kind[cell.0, cell.1] != River && kind[cell.0, cell.1] != Source &&
                height[cell.0][cell.1] != minHeight
    {
      var step := DescentStep(ind);
      if step.None? {
        return Some(IndexError), ind;
      }
      var least: int;
      q, least := step.value.0, step.value.1;
      WalkOn(start, path, marked, q);
      end := StopCheck(q, least);
    }

    /** generate_river: the downhill walk from `source`. */
    method GenerateRiver(source: MapPoint) returns (end: WalkEnd, ghost path: seq<Pos>, ghost marked: seq<Cell>, ghost iterations: nat)
      requires Valid() && InGrid(source.row, source.col)
      modifies kind
      ensures Valid()
      // Only cells that were neither RIVER nor SOURCE change, and they become RIVER.
      ensures forall r, c {:trigger kind[r, c]} :: InGrid(r, c) ==> kind[r, c] == if (r, c) in marked then River else old(kind[r, c])
      ensures forall m {:trigger m in marked} :: m in marked ==> InGrid(m.0, m.1) && old(kind[m.0, m.1]) != River && old(kind[m.0, m.1]) != Source
      // The walk stops at the first cell of the map's least height and
      // leaves it unmarked.
      ensures forall m {:trigger m in marked} :: m in marked ==> InGrid(m.0, m.1) && height[m.0][m.1] != minHeight
      // The path starts at the source and every step is a steepest-descent
      // step; the cells marked are those stepped to, except the one the walk
      // stopped at.
      ensures DescentPath(path)
      ensures end == IndexError ==> Walk((source.row, source.col), path, marked) && !LookupsInRange(path[|path| - 1])
      ensures end != IndexError ==>
                |path| >= 2 && Walk((source.row, source.col), path[..|path| - 1], marked) && StopsAt(path[|path| - 1], end)
      // Each iteration either stops the walk or marks one more cell; from a
      // SOURCE cell that cell is never marked, so the loop runs at most
      // Rows() * Cols() times.
      ensures iterations == |marked| + 1
      ensures old(kind[source.row, source.col]) == Source ==> |path| >= 2 && iterations <= Rows() * Cols()
    {
      ghost var start: Pos := (source.row, source.col);
      var ind: Pos := (source.row, source.col);
      path, marked, iterations := [ind], [], 0;
      while true
        invariant Valid()
        invariant Walk(start, path, marked) && ind == path[|path| - 1]
        invariant forall r, c {:trigger kind[r, c]} :: InGrid(r, c) ==> kind[r, c] == if (r, c) in marked then River else old(kind[r, c])
        invariant forall m {:trigger m in marked} :: m in marked ==> InGrid(m.0, m.1) && old(kind[m.0, m.1]) != River && old(kind[m.0, m.1]) != Source
        invariant iterations == |marked|
        decreases Rows() * Cols() - |marked|
      {
        iterations := iterations + 1;
        var stop, q := Advance(start, path, marked, ind);
        if stop == Some(IndexError) {
          end := IndexError;
          break;
        }
        path := path + [q];
        if stop.Some? {
          end := stop.value;
          break;
        }
        var cell := CellOf(q).value;
        SetType(cell.0, cell.1, River);
        marked := marked + [cell];
        ind := q;
      }
      if old(kind[source.row, source.col]) == Source {
        MissingCellBound(marked, start);
      }
    }

    /** A complete walk from `start`: every position but the last was
        stepped to and marked, and the walk ended at the last one, either
        with IndexError because its neighbour lookups fail, or with one
        more steepest-descent step to a position where a stop reason holds
        and which stays unmarked. */
    ghost predicate Ran(start: Pos, path: seq<Pos>, marked: seq<Cell>, end: WalkEnd)
      requires Shape()
      reads kind
    {
      if end == IndexError then
        Walk(start, path, marked) && !LookupsInRange(path[|path| - 1])
      else
        && |path| >= 2 && Walk(start, path[..|path| - 1], marked)
        && IsDescentStep(path[|path| - 2], path[|path| - 1]) && StopsAt(path[|path| - 1], end)
    }

    /** A complete walk is a steepest-descent path from `start` all the
        way to the position it ended at; when it stopped, a stop reason
        holds there, and it marked exactly the cells stepped to before. */
    lemma RanIsDescent(start: Pos, path: seq<Pos>, marked: seq<Cell>, end: WalkEnd)
      requires Shape() && Ran(start, path, marked, end)
      ensures |path| >= 1 && path[0] == start && DescentPath(path)
      ensures end != IndexError ==> |path| >= 2 && StopsAt(path[|path| - 1], end) && marked == Trail(path[..|path| - 1])
    {
    }

    /** The call generate_river(matrix[r][c]) that generate_rivers makes
        for a SOURCE cell, seen from the caller: the whole walk from (r, c)
        and how it ended; the cells it marked were neither RIVER nor SOURCE
        nor of the least height, and are now RIVER; nothing else changes.
        `ok` is false exactly when the walk raised IndexError. */
    method TraceSource(r: int, c: int) returns (ok: bool, end: WalkEnd, ghost path: seq<Pos>, ghost marked: seq<Cell>)
      requires Valid() && InGrid(r, c) && kind[r, c] == Source
      modifies kind
      ensures Valid()
      ensures ok <==> end != IndexError
      ensures Ran((r, c), path, marked, end)
      ensures forall m {:trigger m in marked} :: m in marked ==>
                InGrid(m.0, m.1) && old(kind[m.0, m.1]) != River && old(kind[m.0, m.1]) != Source &&
                height[m.0][m.1] != minHeight
      ensures forall i, j {:trigger kind[i, j]} :: InGrid(i, j) ==> kind[i, j] == if (i, j) in marked then River else old(kind[i, j])
    {
      ghost var steps;
      end, path, marked, steps := GenerateRiver(Point(r, c));
      ok := end != IndexError;
    }

    /** The i-th logged walk ran to its end from its own source. */
    ghost predicate RanAt(log: WalkLog, i: int)
      requires Shape()
      reads kind
    {
      && 0 <= i < |log.starts| && i < |log.ends| && i < |log.paths| && i < |log.marks|
      && Ran(log.starts[i], log.paths[i], log.marks[i], log.ends[i])
    }

    /** Every logged walk ran to its end from its own source. */
    ghost predicate WalksRan(log: WalkLog)
      requires Shape()
      reads kind
    {
      && |log.ends| == |log.starts| && |log.paths| == |log.starts| && |log.marks| == |log.starts|
      && forall i :: 0 <= i < |log.starts| ==> RanAt(log, i)
    }

    /** `m` was marked by one of the walks. */
    ghost predicate MarkedBy(marks: seq<seq<Cell>>, m: Cell) {
      exists i :: 0 <= i < |marks| && m in marks[i]
    }

    /** Every cell some walk marked is RIVER now. */
    ghost predicate MarksAreRiver(marks: seq<seq<Cell>>)
      requires Shape()
      reads kind
    {
      forall i, m {:trigger m in marks[i]} :: 0 <= i < |marks| && m in marks[i] ==> InGrid(m.0, m.1) && kind[m.0, m.1] == River
    }

    /** The point types, cell by cell. */
    ghost function Kinds(): (g: map<Cell, NodeType>)
      requires Shape()
      reads kind
      ensures forall p :: p in g <==> InGrid(p.0, p.1)
    {
      map i, j | 0 <= i < Rows() && 0 <= j < Cols() :: (i, j) := kind[i, j]
    }

    /** Since the point types were `k0`, every cell either kept its type or
        was neither RIVER nor SOURCE, is RIVER now, and was marked by one of
        the walks. */
    ghost predicate RiversSince(k0: map<Cell, NodeType>, marks: seq<seq<Cell>>)
      requires Shape()
      reads kind
    {
      forall i, j {:trigger kind[i, j]} :: InGrid(i, j) ==>
        (i, j) in k0 &&
        (kind[i, j] == k0[(i, j)] ||
         (kind[i, j] == River && k0[(i, j)] != River && k0[(i, j)] != Source && MarkedBy(marks, (i, j))))
    }

    /** Every walk marked only cells that were neither RIVER nor SOURCE
        when the pass began (point types `k0`). */
    ghost predicate MarksFresh(k0: map<Cell, NodeType>, marks: seq<seq<Cell>>) {
      forall i, m {:trigger m in marks[i]} :: 0 <= i < |marks| && m in marks[i] ==> m in k0 && k0[m] != River && k0[m] != Source
    }

    /** A walk that ended by joining a river joined one that was there when
        the pass began, or one that it or an earlier walk had marked. */
    ghost predicate JoinsEarlier(k0: map<Cell, NodeType>, log: WalkLog) {
      forall i :: 0 <= i < |log.ends| && i < |log.paths| && log.ends[i] == JoinedRiver &&
                  |log.paths[i]| > 0 && CellOf(log.paths[i][|log.paths[i]| - 1]).Some? ==>
        var cell := CellOf(log.paths[i][|log.paths[i]| - 1]).value;
        (cell in k0 && (k0[cell] == River || k0[cell] == Source)) ||
        exists j :: 0 <= j <= i && j < |log.marks| && cell in log.marks[j]
    }

    /** What the driver knows of its log at every point of the pass: the
        types changed since the pass began only by the logged walks, every
        walk ran to its end, and the walks marked disjoint sets of fresh
        cells, all RIVER, and joined only rivers already there. */
    ghost predicate Logged(log: WalkLog)
      requires Shape()
      reads kind
    {
      && RiversSince(log.entry, log.marks) && WalksRan(log) && MarksAreRiver(log.marks) && MarksDisjoint(log.marks)
      && MarksFresh(log.entry, log.marks) && JoinsEarlier(log.entry, log)
    }

    /** One call of generate_rivers' loop body on a SOURCE cell, with the
        driver's log extended by this walk. */
    method TraceNext(r: int, c: int, ghost log: WalkLog) returns (ok: bool, ghost log': WalkLog)
      requires Valid() && InGrid(r, c) && kind[r, c] == Source
      requires Logged(log) && NoAbort(log.ends)
      modifies kind
      ensures Valid() && Logged(log') && log'.entry == log.entry
      ensures log'.starts == log.starts + [(r, c)] && AbortedAtLast(ok, log'.ends)
    {
      var end;
      ghost var path, marked;
      ok, end, path, marked := TraceSource(r, c);
      ghost var start: Cell := (r, c);
      log' := log.Add(start, end, path, marked);
      TraceStep(log, start, end, path, marked);
      LogSince(log);
      LogSnoc(log, start, end, path, marked);
      OriginsSnoc(log, start, end, path, marked);
      assert log'.ends[..|log.ends|] == log.ends;
    }

    /** The river a walk joined at `cell` was there on entry (types `k0`),
        or marked by an earlier walk, or by this walk (`marked`). */
    ghost predicate JoinedFrom(k0: map<Cell, NodeType>, marks: seq<seq<Cell>>, cell: Cell, marked: seq<Cell>) {
      (cell in k0 && (k0[cell] == River || k0[cell] == Source)) || MarkedBy(marks, cell) || cell in marked
    }

    /** What one walk, logged after `log`, did to the point types: the
        cells it marked were fresh on entry and missed by the earlier
        walks, the types changed since the pass began only by logged walks,
        only fresh cells above the least height changed, and a river it
        joined was there on entry or marked by it or an earlier walk. */
    twostate lemma TraceStep(log: WalkLog, new start: Pos, new end: WalkEnd, new path: seq<Pos>, new marked: seq<Cell>)
      requires Shape() && old(RiversSince(log.entry, log.marks)) && old(MarksAreRiver(log.marks))
      requires Ran(start, path, marked, end)
      requires forall m {:trigger m in marked} :: m in marked ==>
                 InGrid(m.0, m.1) && old(kind[m.0, m.1]) != River && old(kind[m.0, m.1]) != Source &&
                 height[m.0][m.1] != minHeight
      requires forall i, j {:trigger kind[i, j]} :: InGrid(i, j) ==> kind[i, j] == if (i, j) in marked then River else old(kind[i, j])
      ensures RiversSince(log.entry, log.marks + [marked])
      ensures forall n, m :: 0 <= n < |log.marks| && m in log.marks[n] ==> m !in marked
      ensures forall i, j {:trigger kind[i, j]} :: InGrid(i, j) ==>
                kind[i, j] == old(kind[i, j]) ||
                (kind[i, j] == River && old(kind[i, j]) != River && old(kind[i, j]) != Source && height[i][j] != minHeight)
      ensures forall m {:trigger m in marked} :: m in marked ==> m in log.entry && log.entry[m] != River && log.entry[m] != Source
      ensures end == JoinedRiver ==> JoinedFrom(log.entry, log.marks, CellOf(path[|path| - 1]).value, marked)
    {
      MarkedBySnoc(log.marks, marked);
      forall i, j | InGrid(i, j)
        ensures (i, j) in log.entry &&
                (kind[i, j] == log.entry[(i, j)] ||
                 (kind[i, j] == River && log.entry[(i, j)] != River && log.entry[(i, j)] != Source && MarkedBy(log.marks + [marked], (i, j))))
      {
        var before := old(kind[i, j]);
        assert before == log.entry[(i, j)] || (before == River && MarkedBy(log.marks, (i, j)));
        if (i, j) in marked {
          assert kind[i, j] == River && before != River && before != Source;
          assert MarkedBy(log.marks + [marked], (i, j));
        } else {
          assert kind[i, j] == before;
        }
      }
      forall n, m | 0 <= n < |log.marks| && m in log.marks[n] ensures m !in marked {
        var before := old(kind[m.0, m.1]);
        assert before == River;
      }
      forall i, j | InGrid(i, j)
        ensures kind[i, j] == old(kind[i, j]) ||
                (kind[i, j] == River && old(kind[i, j]) != River && old(kind[i, j]) != Source && height[i][j] != minHeight)
      {
        if (i, j) in marked {
          var before := old(kind[i, j]);
          assert before != River && before != Source && height[i][j] != minHeight;
        }
      }
      forall m | m in marked ensures m in log.entry && log.entry[m] != River && log.entry[m] != Source {
        var before := old(kind[m.0, m.1]);
        assert before == log.entry[m];
      }
      if end == JoinedRiver {
        var cell := CellOf(path[|path| - 1]).value;
        if cell !in marked {
          var before := old(kind[cell.0, cell.1]);
          assert before == log.entry[cell] || MarkedBy(log.marks, cell);
        }
      }
    }

    /** Later walks keep the log true: they only turn cells that were
        neither RIVER nor SOURCE, and not of the least height, into RIVER.
        So every earlier mark stays RIVER, and every stop reason stays true:
        a RIVER or SOURCE cell stays one, and a cell of the least height
        keeps its type. */
    twostate lemma LogSince(new log: WalkLog)
      requires Shape() && old(WalksRan(log)) && old(MarksAreRiver(log.marks))
      requires forall i, j {:trigger kind[i, j]} :: InGrid(i, j) ==>
                 kind[i, j] == old(kind[i, j]) ||
                 (kind[i, j] == River && old(kind[i, j]) != River && old(kind[i, j]) != Source && height[i][j] != minHeight)
      ensures WalksRan(log) && MarksAreRiver(log.marks)
    {
      forall n | 0 <= n < |log.starts| ensures RanAt(log, n) {
        assert old(RanAt(log, n));
        var path, end := log.paths[n], log.ends[n];
        if end != IndexError {
          var q := path[|path| - 1];
          if end != ReachedEdge {
            var cell := CellOf(q).value;
            var before := old(kind[cell.0, cell.1]);
            assert kind[cell.0, cell.1] == before;
          }
        }
      }
      forall n, m | 0 <= n < |log.marks| && m in log.marks[n] ensures InGrid(m.0, m.1) && kind[m.0, m.1] == River {
        var before := old(kind[m.0, m.1]);
        assert before == River;
      }
    }

    /** Recording one more walk keeps every earlier mark and adds its own. */
    lemma {:induction false} MarkedBySnoc(marks: seq<seq<Cell>>, marked: seq<Cell>)
      ensures forall m :: MarkedBy(marks + [marked], m) <==> MarkedBy(marks, m) || m in marked
    {
      var all := marks + [marked];
      forall m | MarkedBy(marks, m) ensures MarkedBy(all, m) {
        var n :| 0 <= n < |marks| && m in marks[n];
        assert all[n] == marks[n];
      }
      forall m | m in marked ensures MarkedBy(all, m) {
        assert all[|marks|] == marked;
      }
      forall m | MarkedBy(all, m) ensures MarkedBy(marks, m) || m in marked {
        var n :| 0 <= n < |all| && m in all[n];
        if n < |marks| {
          assert all[n] == marks[n];
        }
      }
    }

    /** Logging a complete walk whose marks are RIVER and missed by every
        earlier walk keeps the log's walks complete, its marks RIVER and
        disjoint. */
    lemma {:induction false} LogSnoc(log: WalkLog, start: Cell, end: WalkEnd, path: seq<Pos>, marked: seq<Cell>)
      requires Shape() && WalksRan(log) && MarksAreRiver(log.marks) && MarksDisjoint(log.marks)
      requires Ran(start, path, marked, end)
      requires forall m {:trigger m in marked} :: m in marked ==> InGrid(m.0, m.1) && kind[m.0, m.1] == River
      requires forall n, m :: 0 <= n < |log.marks| && m in log.marks[n] ==> m !in marked
      ensures WalksRan(log.Add(start, end, path, marked))
      ensures MarksAreRiver(log.marks + [marked]) && MarksDisjoint(log.marks + [marked])
    {
      var all := log.Add(start, end, path, marked);
      forall n | 0 <= n < |all.starts| ensures RanAt(all, n) {
        if n < |log.starts| {
          assert RanAt(log, n);
          assert all.starts[n] == log.starts[n] && all.paths[n] == log.paths[n];
          assert all.marks[n] == log.marks[n] && all.ends[n] == log.ends[n];
        } else {
          assert all.starts[n] == start && all.paths[n] == path;
          assert all.marks[n] == marked && all.ends[n] == end;
        }
      }
      forall n, m: Cell | 0 <= n < |all.marks| && m in all.marks[n] ensures InGrid(m.0, m.1) && kind[m.0, m.1] == River {
        if n < |log.marks| {
          assert all.marks[n] == log.marks[n];
        }
      }
      forall i, j, m: Cell | 0 <= i < j < |all.marks| && m in all.marks[j] ensures m !in all.marks[i] {
        assert all.marks[i] == log.marks[i];
        if j < |log.marks| {
          assert all.marks[j] == log.marks[j];
        }
      }
    }

    /** Logging a walk whose marks were fresh on entry, and whose joined
        river, if any, was there on entry or marked by it or an earlier
        walk, keeps MarksFresh and JoinsEarlier. */
    lemma {:induction false} OriginsSnoc(log: WalkLog, start: Cell, end: WalkEnd, path: seq<Pos>, marked: seq<Cell>)
      requires MarksFresh(log.entry, log.marks) && JoinsEarlier(log.entry, log)
      requires |log.ends| == |log.paths| == |log.marks|
      requires forall m {:trigger m in marked} :: m in marked ==> m in log.entry && log.entry[m] != River && log.entry[m] != Source
      requires end == JoinedRiver && |path| > 0 && CellOf(path[|path| - 1]).Some? ==>
                 JoinedFrom(log.entry, log.marks, CellOf(path[|path| - 1]).value, marked)
      ensures MarksFresh(log.entry, log.marks + [marked]) && JoinsEarlier(log.entry, log.Add(start, end, path, marked))
    {
      var all := log.Add(start, end, path, marked);
      forall n, m | 0 <= n < |all.marks| && m in all.marks[n] ensures m in log.entry && log.entry[m] != River && log.entry[m] != Source {
        if n < |log.marks| {
          assert all.marks[n] == log.marks[n];
        }
      }
      forall n | 0 <= n < |all.ends| && n < |all.paths| && all.ends[n] == JoinedRiver &&
                 |all.paths[n]| > 0 && CellOf(all.paths[n][|all.paths[n]| - 1]).Some?
        ensures var cell := CellOf(all.paths[n][|all.paths[n]| - 1]).value;
                (cell in log.entry && (log.entry[cell] == River || log.entry[cell] == Source)) ||
                exists j :: 0 <= j <= n && j < |all.marks| && cell in all.marks[j]
      {
        if n < |log.ends| {
          assert all.ends[n] == log.ends[n] && all.paths[n] == log.paths[n];
          var cell := CellOf(log.paths[n][|log.paths[n]| - 1]).value;
          if !(cell in log.entry && (log.entry[cell] == River || log.entry[cell] == Source)) {
            var j :| 0 <= j <= n && j < |log.marks| && cell in log.marks[j];
            assert all.marks[j] == log.marks[j];
          }
        } else {
          var cell := CellOf(path[|path| - 1]).value;
          if cell in marked {
            assert all.marks[n] == marked;
          } else if MarkedBy(log.marks, cell) {
            var j :| 0 <= j < |log.marks| && cell in log.marks[j];
            assert all.marks[j] == log.marks[j];
          }
        }
      }
    }

    /** One row of generate_rivers' scan: the walk from each SOURCE cell
        of row r, left to right, appended to the driver's log; `ok` is
        false when a walk raised IndexError, which ends the pass there. */
    method TraceRow(r: int, ghost S0: set<Cell>, ghost log: WalkLog) returns (ok: bool, ghost log': WalkLog)
      requires Valid() && 0 <= r < Rows()
      requires forall p {:trigger p in S0} :: p in S0 <==> p in log.entry && log.entry[p] == Source
      requires Logged(log) && NoAbort(log.ends)
      requires log.starts == RowMajor(S0, Cols(), r)
      modifies kind
      ensures Valid() && Logged(log') && log'.entry == log.entry && AbortedAtLast(ok, log'.ends)
      ensures ok ==> log'.starts == RowMajor(S0, Cols(), r + 1)
      ensures !ok ==> log'.starts != [] && log'.starts <= RowMajor(S0, Cols(), Rows())
    {
      log' := log;
      var c := 0;
      while c < Cols()
        invariant Valid() && 0 <= c <= Cols()
        invariant Logged(log') && log'.entry == log.entry && NoAbort(log'.ends)
        invariant log'.starts == RowMajor(S0, Cols(), r) + RowSegment(S0, r, c)
      {
        if kind[r, c] == Source {
          assert (r, c) in S0;
          ok, log' := TraceNext(r, c, log');
          if !ok {
            StoppedScanPrefix(S0, Cols(), Rows(), r, c, log'.starts);
            return;
          }
        } else {
          assert (r, c) !in S0;
        }
        c := c + 1;
      }
      ok := true;
    }

    /** generate_rivers: runs the walk from every SOURCE cell, row by row;
        an IndexError from a walk ends the whole pass. */
    method GenerateRivers() returns (ok: bool, ghost log: WalkLog)
      requires Valid()
      modifies kind
      ensures Valid()
      ensures forall r, c {:trigger kind[r, c]} :: InGrid(r, c) ==> (kind[r, c] == Source <==> old(kind[r, c]) == Source)
      ensures forall r, c {:trigger kind[r, c]} :: InGrid(r, c) ==>
                kind[r, c] == old(kind[r, c]) ||
                (kind[r, c] == River && old(kind[r, c]) != River && old(kind[r, c]) != Source && MarkedBy(log.marks, (r, c)))
      // The walks started from the SOURCE cells in row-major order, all of
      // them unless one raised IndexError, which is then the last walk.
      ensures ok ==> log.starts == RowMajor(old(SourceCells()), Cols(), Rows())
      ensures !ok ==> log.starts != [] && log.starts <= RowMajor(old(SourceCells()), Cols(), Rows())
      ensures AbortedAtLast(ok, log.ends)
      // Each walk ran to its end from its own source, and its stop reason
      // still holds; no cell was marked by two walks, every marked cell
      // was neither RIVER nor SOURCE on entry and is RIVER now, and a walk
      // that joined a river joined one there on entry or marked by it or
      // an earlier walk.
      ensures log.entry == old(Kinds())
      ensures WalksRan(log) && MarksDisjoint(log.marks) && MarksAreRiver(log.marks)
      ensures MarksFresh(log.entry, log.marks) && JoinsEarlier(log.entry, log)
    {
      ghost var S0 := SourceCells();
      ghost var k0 := Kinds();
      SourcesOfKinds();
      ok, log := TraceRows(k0, S0);
      KindsSince(log.marks);
    }

    /** The loop of generate_rivers: TraceRow on each row in turn, until a
        walk raises IndexError; `k0` are the point types and `S0` the SOURCE
        cells on entry. */
    method TraceRows(ghost k0: map<Cell, NodeType>, ghost S0: set<Cell>) returns (ok: bool, ghost log: WalkLog)
      requires Valid() && RiversSince(k0, [])
      requires forall p {:trigger p in S0} :: p in S0 <==> p in k0 && k0[p] == Source
      modifies kind
      ensures Valid() && Logged(log) && log.entry == k0 && AbortedAtLast(ok, log.ends)
      ensures ok ==> log.starts == RowMajor(S0, Cols(), Rows())
      ensures !ok ==> log.starts != [] && log.starts <= RowMajor(S0, Cols(), Rows())
    {
      log := WalkLog(k0, [], [], [], []);
      ok := true;
      var r := 0;
      while r < Rows() && ok
        invariant Valid() && 0 <= r <= Rows()
        invariant Logged(log) && log.entry == k0 && AbortedAtLast(ok, log.ends)
        invariant ok ==> log.starts == RowMajor(S0, Cols(), r)
        invariant !ok ==> log.starts != [] && log.starts <= RowMajor(S0, Cols(), Rows())
      {
        ok, log := TraceRow(r, S0, log);
        r := r + 1;
      }
    }

    /** The SOURCE cells are the cells whose point type is SOURCE. */
    lemma {:induction false} SourcesOfKinds()
      requires Shape()
      ensures forall p {:trigger p in SourceCells()} :: p in SourceCells() <==> p in Kinds() && Kinds()[p] == Source
    {
      forall p | p in Kinds() && Kinds()[p] == Source ensures p in SourceCells() {
        assert kind[p.0, p.1] == Source;
      }
    }

    /** RiversSince, measured from the point types on entry, spelled out
        cell by cell. */
    twostate lemma KindsSince(new marks: seq<seq<Cell>>)
      requires Shape() && RiversSince(old(Kinds()), marks)
      ensures forall r, c {:trigger kind[r, c]} :: InGrid(r, c) ==> (kind[r, c] == Source <==> old(kind[r, c]) == Source)
      ensures forall r, c {:trigger kind[r, c]} :: InGrid(r, c) ==>
                kind[r, c] == old(kind[r, c]) ||
                (kind[r, c] == River && old(kind[r, c]) != River && old(kind[r, c]) != Source && MarkedBy(marks, (r, c)))
    {
    }
  }
}
