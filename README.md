# limnogropher river synthesis, modelled in Dafny

limnogropher turns a greyscale heightmap into a river map. This project models
its river-synthesis core, `src/limnogropher.py`:

- **The terrain grid** (`process_images`): one `map_point` per pixel, with the
  pixel's height, kind NONE, and its own row and column. It also holds the
  global minimum and maximum height. Here the grid is the class
  `Limnograph.Limnograph`:
  - heights are a constant `seq<seq<int>>`, because nothing writes them after
    construction;
  - point types are an `array2<NodeType>`, updated in place;
  - `Point(r, c)` is the `map_point` at a cell.
- **Source selection** (`generate_sources`): collect every cell whose height
  lies in `[max - max // k, max]` and which satisfies `1 < row < R - 1` and
  `1 < col < C - 1`, row by row. That leaves two cells clear of the top and
  left edges, and one clear of the bottom and right. Then repeatedly pick
  one at random, remove it from the list and mark it SOURCE, until
  `source_count` are marked or none are left.
- **The downhill walk** (`generate_river`). From a source, each turn reads the
  eight neighbour heights and steps to one of the lowest, picked at random when
  there are several. The walk stops at the far row or column, at a RIVER or
  SOURCE cell, or at the first cell of the map's minimum height, which it
  leaves unmarked. Otherwise it marks the new cell RIVER and goes on.
- **The driver** (`generate_rivers`): one walk from every SOURCE cell, in
  row-major order.

Python semantics the core relies on are written out in module `Builtins`:

- negative list subscripts (`xs[-1]` is the last element, and a subscript
  outside `[-n, n)` raises IndexError);
- floor division `//`;
- `min`/`max` of a list;
- `list.remove`;
- `ndarray.flatten`.

Module `Grid` defines the row-major listing of a set of cells. It proves that
the listing is exactly the set, strictly ascending, and no longer than
rows × cols.

The walk only guards the far edges: it stops when `row >= R - 1` or
`col >= C - 1`. Its neighbour lookups at `row - 1` and `col - 1` use Python's
negative indexing, so the model gives walk positions as unbounded integer pairs
(`Pos`) and resolves every lookup with `PyIndex`:

- Position `-1` names the last row or column.
- A walk whose lookups leave `[-n, n)` raises IndexError. The model reports
  this as the outcome `IndexError`.
- That exception ends `generate_rivers` as well; `GenerateRivers` returns
  `ok == false`.

The proved results include these:

- Every chosen source is eligible.
- Exactly `min(source_count, #eligible)` distinct cells become SOURCE, and
  nothing else changes.
- Every walk step goes to a neighbour of least height.
- The lake branch (line 143) can never fire, so LAKE is never written.
- A walk only turns cells that were neither RIVER nor SOURCE into RIVER,
  and never a cell of the map's minimum height.
- A walk from a SOURCE cell runs at most R × C turns.
- `generate_rivers` keeps the set of SOURCE cells and runs the complete walk
  from each, in row-major order. Each walk is logged with its path, its
  marks and how it ended:
  - every step of every walk, the last included, is a steepest descent;
  - every walk but the last ended at a stop reason that still holds at the
    end of the pass;
  - the last one did too, or it raised IndexError, and then `ok` is false;
  - no cell was marked by two walks, and every marked cell was neither
    RIVER nor SOURCE when the pass began and is RIVER at its end;
  - a walk that joined a river joined one there when the pass began, or one
    it or an earlier walk marked;
  - every cell the pass changed was marked by one of the walks.

## Model

| member | source | states |
|---|---|---|
| Builtins.PyIndex | src/limnogropher.py:115-122 | A subscript is accepted exactly when it lies in [-n, n); an accepted one names slot i, or i + n when negative, always below n; anything else is IndexError |
| Builtins.FloorDiv | src/limnogropher.py:88 | `max_height // k` is the floor of the quotient: q*k <= a < q*k + k for k > 0, and the mirrored bounds for k < 0 |
| Builtins.MinOf | src/limnogropher.py:79 | `min` of a non-empty list is one of its elements and no element is smaller |
| Builtins.MaxOf | src/limnogropher.py:80 | `max` of a non-empty list is one of its elements and no element is larger |
| Builtins.FlattenMembers | src/limnogropher.py:79-80 | The flattened grid holds every cell's entry and nothing else |
| Builtins.GridMinMax | src/limnogropher.py:79-80 | min and max over the flattened grid bound every cell's height and each is the height of some cell |
| Builtins.RemoveSpec | src/limnogropher.py:96 | `remove` drops exactly one occurrence: one element fewer, multiset less that value, every other value kept, nothing new |
| Builtins.RemoveDistinct | src/limnogropher.py:95-96 | On a list without repetitions, removing the element picked at index i drops exactly slot i, leaves no repetitions, and keeps exactly the other values |
| Builtins.DistinctCard | src/limnogropher.py:94-98 | A list without repetitions has as many distinct values as entries, so the eligible list's length is the number of eligible cells |
| Grid.RowSegmentSpec | src/limnogropher.py:91-93 | The scan of one row lists exactly the matching cells left of column j, left to right, at most j of them |
| Grid.RowMajorMembers | src/limnogropher.py:90-93 | The row-by-row scan lists exactly the matching cells inside the scanned rows |
| Grid.RowMajorSpec | src/limnogropher.py:90-93 | The row-by-row scan is in strictly increasing row-major order, hence without repetitions |
| Grid.RowMajorPrefix | src/limnogropher.py:102-105 | Part-way through a row, the cells visited so far are a prefix of the full row-major listing |
| Grid.CellsBound | src/limnogropher.py:149-156 | A set of cells inside an R-by-C grid has at most R × C members, the measure bounding the walk |
| Limnograph.CompassIsNeighbourhood | src/limnogropher.py:114-123 | The eight dictionary keys are distinct, each steps to one of the eight surrounding cells, and every surrounding cell is reached by one of them |
| Limnograph.MinimalDirs | src/limnogropher.py:125 | lowest_dir holds exactly the keys whose height is no larger than any height in dir_heights |
| Limnograph.MinimalDirsNonEmpty | src/limnogropher.py:124-125 | With all eight heights known, lowest_dir is never empty, so the walk always takes a step |
| Limnograph.TakeSpot | src/limnogropher.py:95-98 | Taking the random spot out of the available list keeps the list exactly the eligible cells not yet chosen, without repetitions, one shorter, and adds one new cell to the chosen set |
| Limnograph.Limnograph.constructor | src/limnogropher.py:65-80 | The grid is the pixel grid, every point type is NONE, min_height and max_height are min and max over all pixels, and the heights lie in 0..255 between them, both bounds attained |
| Limnograph.Limnograph.SetType | src/limnogropher.py:156 | Writing one point type changes exactly that cell |
| Limnograph.Limnograph.CellOf | src/limnogropher.py:115-122 | A position that survives Python indexing names a cell of the grid |
| Limnograph.Limnograph.LookupsInRangeExactly | src/limnogropher.py:114-123 | Building dir_heights succeeds exactly when the position's rows and columns ±1 are subscripts Python accepts |
| Limnograph.Limnograph.NeighbourHeights | src/limnogropher.py:114-123 | dir_heights is built, rather than IndexError raised, exactly when the cell in each of the eight directions has a height Python can look up; when built, it has all eight keys and maps each to the height of the cell one step that way |
| Limnograph.Limnograph.LowestIsDescent | src/limnogropher.py:131-138 | Stepping in a direction of lowest_dir goes to a neighbour whose height is the least of the eight |
| Limnograph.Limnograph.CollectEligible | src/limnogropher.py:86-93 | The scan returns the eligible cells (height band, 1 < row < R - 1 and 1 < col < C - 1) in row-major order, each once, and no other cells |
| Limnograph.Limnograph.PlaceSources | src/limnogropher.py:94-98 | The choice loop marks min(source_count, #spots) distinct spots SOURCE (none when source_count <= 0) and changes no other cell |
| Limnograph.Limnograph.GenerateSources | src/limnogropher.py:83-98 | Exactly min(source_count, #eligible) distinct cells become SOURCE, each with height in [max - max // k, max] and 1 < row < R - 1, 1 < col < C - 1; no other cell changes |
| Limnograph.Limnograph.MissingCellBound | src/limnogropher.py:149-156 | Distinct marked cells that miss a grid cell are fewer than R × C, and the missed cell can be appended without repetition |
| Limnograph.Limnograph.DescentStep | src/limnogropher.py:114-138 | The step raises IndexError exactly when a lookup is out of range; otherwise it moves to a neighbour of least height among the eight and reports that height |
| Limnograph.Limnograph.DescentPathSteps | src/limnogropher.py:131-138 | A path is a descent path exactly when each consecutive pair is a steepest-descent step |
| Limnograph.Limnograph.TrailMembers | src/limnogropher.py:156 | A cell is marked along a path exactly when some step after the start lands on it |
| Limnograph.Limnograph.ShortOfFarEdgesAll | src/limnogropher.py:140-142 | Every step after the start stays short of the far row and column exactly when each step does |
| Limnograph.Limnograph.StopCheck | src/limnogropher.py:140-154 | Stops at the far edge, then at RIVER/SOURCE, then at the minimum height, and otherwise lets the walk mark a cell that is short of the far edges, not RIVER/SOURCE and above the minimum; the lake branch is unreachable |
| Limnograph.Limnograph.WalkOn | src/limnogropher.py:131-156 | A descent step extends the walk; marking an unmarked cell short of the far edges and above the minimum height keeps the walk's marks distinct, above the minimum, and fewer than R × C |
| Limnograph.Limnograph.Advance | src/limnogropher.py:114-154 | One turn: IndexError exactly when a lookup is out of range; otherwise a steepest-descent step, and either the reason the walk stops there or a cell that is neither RIVER nor SOURCE nor of minimum height and extends the walk |
| Limnograph.Limnograph.GenerateRiver | src/limnogropher.py:107-156 | Only cells that were neither RIVER nor SOURCE change, and they become RIVER; no marked cell has the minimum height; every step is a steepest descent; the walk ends at an IndexError or a stop reason (a minimum-height stop leaves that cell unmarked); from a SOURCE cell it runs at most R × C turns |
| Limnograph.Limnograph.TraceSource | src/limnogropher.py:104-105 | The call generate_river(pixel) on a SOURCE cell: the complete walk from that cell and how it ended (IndexError because the last position's lookups fail, or a final steepest-descent step to a position where a stop reason holds, left unmarked); `ok` exactly when it did not raise; exactly its marked cells, which were neither RIVER nor SOURCE nor of least height, become RIVER; nothing else changes |
| Limnograph.Limnograph.RanIsDescent | src/limnogropher.py:110-156 | A logged complete walk starts at its source and every step, the last included, is a steepest descent; when it stopped, a stop reason holds at its last position and it marked exactly the cells stepped to before that |
| Limnograph.Limnograph.TraceStep | src/limnogropher.py:104-105 | One walk, after earlier logged walks: it marked cells fresh on entry to the pass and missed by earlier walks; every change since the pass began is a RIVER cell some logged walk marked; a river it joined was there on entry or marked by it or an earlier walk |
| Limnograph.Limnograph.LogSince | src/limnogropher.py:140-156 | A later walk, which only turns fresh cells above the least height into RIVER, keeps every logged walk complete with its stop reason still true, and every logged mark RIVER |
| Limnograph.Limnograph.LogSnoc | src/limnogropher.py:102-105 | Appending one complete walk whose marks are RIVER and new keeps the log complete, its marks RIVER and pairwise disjoint |
| Limnograph.Limnograph.OriginsSnoc | src/limnogropher.py:102-105 | Appending a walk whose marks were fresh on entry and whose joined river was already there keeps both facts for the whole log |
| Limnograph.Limnograph.TraceNext | src/limnogropher.py:103-105 | One SOURCE cell of the scan: the walk from it is appended to the log, which keeps every fact of the pass (changes only by logged walks, walks complete, marks fresh, disjoint and RIVER, joined rivers already there); `ok` is false exactly when this walk raised IndexError |
| Limnograph.Limnograph.TraceRow | src/limnogropher.py:103-105 | One row of the scan: a walk from each SOURCE cell of the row, left to right, keeping the log; when a walk raised IndexError it is the last one logged and the starts are a non-empty prefix of the listing |
| Limnograph.Limnograph.TraceRows | src/limnogropher.py:102-105 | The whole scan: walks from all the SOURCE cells in row-major order, or from a non-empty prefix of them ending with the walk that raised IndexError; the log keeps every fact of the pass |
| Grid.StoppedScanPrefix | src/limnogropher.py:102-105 | A scan stopped right after taking a cell has taken a non-empty prefix of the row-major listing |
| Limnograph.Limnograph.GenerateRivers | src/limnogropher.py:100-105 | SOURCE cells stay exactly the SOURCE cells; the log holds one complete walk from each original SOURCE cell in row-major order, each ending at a stop reason still true at the end, except that when `ok` is false a prefix was walked and its last walk raised IndexError; no cell was marked twice; every marked cell was neither RIVER nor SOURCE on entry and is RIVER now; joined rivers were there on entry or marked earlier; every changed cell was marked by a walk |

## Left out

- Image loading, greyscale conversion and Gaussian blur (src/limnogropher.py:59-65): foreign library calls. The constructor takes the blurred 8-bit pixel grid as its argument.
- Limnograph.Limnograph.constructor: requires a non-empty rectangular image. An empty one makes `min` raise ValueError, and that path is not modelled.
- Aridity loading (src/limnogropher.py:73-77): it subscripts a `map_point` and cannot run as written, and the walk never reads aridity. Every MapPoint has aridity 0.
- The `rivers`, `heightmap`, `ariditymap` and `output_path` fields, `render`, `render_sources`, `printarray` and every `print` diagnostic: output plumbing.
- The reverse-direction filter and `opp_dir` (src/limnogropher.py:127, 134, 158-160): dead code, because `previous_dir` stays NONE. The direction type has no NONE member for the same reason.
- Limnograph.Limnograph.DescentStep: `random.choice` among the lowest directions is a nondeterministic choice, so its uniform distribution is not captured. The same holds for the spot chosen by Limnograph.Limnograph.PlaceSources.
- `random.randint(1, 10)` in the lake branch (src/limnogropher.py:144): that branch is proved unreachable, so the draw and the LAKE write are modelled as dead code.
- The `seed` and `pathsize` parameters: never used by the source.
- Limnograph.Limnograph.GenerateSources: `k` (source_range_param) is a non-zero integer. A float `k` such as 1.7 is not modelled. `k == 0` raises ZeroDivisionError in the source and is excluded by the precondition.
- Limnograph.Limnograph.GenerateRiver: the walk's outcome (`WalkEnd`) is an added return value. The source only prints which stop it took, or propagates IndexError.
- Limnograph.Limnograph.GenerateRivers: IndexError propagating out of a walk is modelled as the driver returning `ok == false` immediately.
- The grid of `map_point` objects: modelled as two parallel grids, heights and point types, keyed by cell. Aliasing of the `map_point` objects is not modelled. A map_point's row and col are its indices.
