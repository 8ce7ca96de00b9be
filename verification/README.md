# HexaBin hexagon grid generator — Dafny model

HexaBin is a script for the QGIS Python console that covers the extent of a layer with a
grid of flat-topped regular hexagons of a requested area. It builds and
shows its dialog when it is loaded (lines 399-404). This project
models its generator core and proves properties of it:

- the conversion of the requested area into square metres (`Units`);
- the choice of the output layer's name, `HexGrid` or the first free
  `HexGrid_1` … `HexGrid_99` (`LayerNaming`);
- the tiler, which walks the extent row by row and emits one hexagon
  centre per lattice position (`Tiling`);
- the hexagon itself, six vertices at 0, 60, …, 300 degrees around the
  centre, with its feature id as its only attribute (`Hexagon`);
- the grid assembly, which turns a positive area into a radius, submits
  one hexagon task per centre, and collects the results in completion
  order with a progress report after each (`Assembly`).

All coordinates and areas are exact reals. Python's `None` is
`Wrappers.Option`. The two `while` loops of the tiler appear twice:
- as recursive reference functions (`Tiling.RowFrom`, `Tiling.RowsFrom`,
  `Tiling.Cells`);
- as the loops themselves (`Tiling.EnumerateRow`,
  `Tiling.EnumerateCentres`), proved to produce exactly the reference
  sequence.

Termination of the real-valued loops is measured by the number of passes
left. `Tiling.StepCountExists` proves that this number exists when the step
is positive.

Files: `wrappers.dfy`, `units.dfy`, `layer_naming.dfy`, `tiling.dfy`,
`hexagon.dfy`, `assembly.dfy`.

## Model

| member | source | states |
|---|---|---|
| Units.ConvertAreaToSquareMeters | HEXABIN_0.1.py:298-328 | `None` exactly for a unit outside the table; otherwise the area times that unit's factor (10000, 4046.86, 1e6, 2.59e6, 1) |
| Units.TableMatchesDialog | HEXABIN_0.1.py:137-138 | the factor table knows exactly the five units the dialog offers, and every factor is positive |
| Units.RoundTrip | HEXABIN_0.1.py:310-323 | converting to square metres and back returns the original area, for every dialog unit |
| Units.ConversionMonotone | HEXABIN_0.1.py:323 | a larger area converts to more square metres, in every unit |
| LayerNaming.DecimalString | HEXABIN_0.1.py:235 | the decimal text of `i` in the f-string: only digits, no leading zero, one digit exactly below 10 |
| LayerNaming.DecimalRoundTrip | HEXABIN_0.1.py:235 | reading back the printed number gives the number |
| LayerNaming.IndexedNamesDistinct | HEXABIN_0.1.py:234-235 | `HexGrid_i` never equals `HexGrid`, and `HexGrid_i` equals `HexGrid_j` exactly when i equals j |
| LayerNaming.FirstFreeIndex | HEXABIN_0.1.py:234-242 | the loop over `range(i, 100)` returns the smallest index whose name is free; `None` exactly when every index up to 99 is taken |
| LayerNaming.ChooseLayerName | HEXABIN_0.1.py:232-244 | the chosen name is free; it is `HexGrid` exactly when that is free; otherwise it is the indexed name with the smallest free index; `None` exactly when all hundred candidates are taken |
| LayerNaming.FirstOutside | HEXABIN_0.1.py:232-244 | independent reference search: the first candidate outside the taken set, `None` exactly when all are taken |
| LayerNaming.ChooseIsFirstFreeCandidate | HEXABIN_0.1.py:232-244 | the name chosen equals the first free name of the list `HexGrid`, `HexGrid_1`, …, `HexGrid_99` |
| LayerNaming.NextChoiceDiffers | HEXABIN_0.1.py:232-244 | once the chosen name is taken, the next run chooses a different name |
| LayerNaming.SequentialNumbering | HEXABIN_0.1.py:232-244 | with `HexGrid` and `HexGrid_1` … `HexGrid_{n-1}` taken, the next layer is `HexGrid_n` |
| Tiling.OffsetClosedForm | HEXABIN_0.1.py:372-373 | adding a step k times moves by k times the step |
| Tiling.StepCountExists | HEXABIN_0.1.py:365-374 | with a positive step, `while p < bound: p += step` runs exactly `ceiling((bound - start) / step)` times, or not at all |
| Tiling.StepCountShrinks | HEXABIN_0.1.py:365-374 | each pass leaves one pass fewer, so both loops end |
| Tiling.RowFromFacts | HEXABIN_0.1.py:369-372 | the inner loop emits consecutive columns with consecutive ids, each centre left of `x_max`, and stops at the first column whose centre is not |
| Tiling.RowsFromFacts | HEXABIN_0.1.py:365-374 | the outer loop emits dense ids, placed centres, a first centre in column 0, and each centre following its predecessor |
| Tiling.Cells | HEXABIN_0.1.py:356-374 | ids are 0 … N-1 in emission order; centre k is at `x_min + RowOffset(row) + col * 1.5w` and `y_min + row * 0.5h`, with odd rows offset by 0.75w; every centre lies in `[x_min, x_max) x [y_min, y_max)` |
| Tiling.CellsOrder | HEXABIN_0.1.py:365-374 | emission is row-major; each centre is either one column step right of its predecessor at the same height, or the first centre of a higher row |
| Tiling.RowSpacing | HEXABIN_0.1.py:373 | consecutive rows are `0.5 * height` apart |
| Tiling.CellsExactlyInside | HEXABIN_0.1.py:365-372 | a lattice position is emitted exactly when its centre lies below both upper bounds, and no position is emitted twice |
| Tiling.EmptyExtentHasNoCells | HEXABIN_0.1.py:365-369 | an extent with no width or no height gives no centres |
| Tiling.EnumerateRow | HEXABIN_0.1.py:366-372 | the inner loop as written, with the odd-row shift, produces exactly the reference row |
| Tiling.EnumerateCentres | HEXABIN_0.1.py:356-374 | the two loops as written produce exactly `Cells`, a function of the extent and the size alone, so every run gives the same centres |
| Hexagon.PyRange | HEXABIN_0.1.py:335 | `range(start, stop, step)`: the elements `start + k*step` below `stop`, and no further one |
| Hexagon.VertexAngles | HEXABIN_0.1.py:335 | the vertex angles are 0, 60, 120, 180, 240, 300 |
| Hexagon.CreateHexagon | HEXABIN_0.1.py:330-340 | the ring has 6 vertices; vertex k is the centre plus `radius` times (cos, sin) of `60k` degrees; the attributes are `[feature_id]` |
| Hexagon.ExactTrig | HEXABIN_0.1.py:333-334 | cosine and sine computed exactly at the six vertex angles |
| Hexagon.RingAtAngles | HEXABIN_0.1.py:331-336 | the ring lists the vertices at 0, 60, …, 300 degrees in that order |
| Hexagon.Vertices | HEXABIN_0.1.py:331-336 | the six vertices written out with the apothem `sqrt 3 / 2 * radius` |
| Hexagon.Regular | HEXABIN_0.1.py:331-336 | every vertex is `radius` from the centre and every side is `radius` long |
| Hexagon.Span | HEXABIN_0.1.py:346-347 | the hexagon spans `2 * radius` horizontally and `sqrt 3 * radius` vertically, the width and height the grid spaces its centres by |
| Hexagon.Area | HEXABIN_0.1.py:345 | by the shoelace formula the hexagon encloses `3 * sqrt 3 / 2 * radius^2`, with the ring counter-clockwise |
| Assembly.SizeValid | HEXABIN_0.1.py:345-347 | a positive radius gives a positive width and height |
| Assembly.HexagonHasRequestedArea | HEXABIN_0.1.py:345 | with the radius derived from the area, every hexagon encloses exactly the requested area |
| Assembly.IdentityOrder | HEXABIN_0.1.py:376-377 | completion in submission order is one of the possible completion orders |
| Assembly.CompletionOrderCovers | HEXABIN_0.1.py:376-377 | every submitted task's result is collected |
| Assembly.CollectResults | HEXABIN_0.1.py:376-379 | result i is the task completed i-th, and progress report i is `(i + 1, total)` |
| Assembly.ProgressPercent | HEXABIN_0.1.py:247-248 | the bar value is at most 100, and is 100 exactly when `current == total` |
| Assembly.ProgressAdvances | HEXABIN_0.1.py:376-379 | the reports count up strictly, the bar never moves back, and the last report is `(total, total)` at 100 |
| Assembly.CreateHexagonalGrid | HEXABIN_0.1.py:342-397 | `None` exactly when the area is missing or not positive; otherwise a layer with the given name, the single field `id`, one hexagon per centre in completion order, and one progress report per hexagon |
| Assembly.GridIds | HEXABIN_0.1.py:356-379 | feature i carries the id of the task completed i-th; every id 0 … N-1 occurs; no id occurs twice |
| Assembly.ZeroAreaLoopsForever | HEXABIN_0.1.py:345-374 | an area of 0 gives radius 0 and row and column steps of 0, and over an extent of positive height the outer loop has no finite number of passes |
| Assembly.StartProcessing | HEXABIN_0.1.py:226-253 | a layer is made exactly for a dialog unit, a positive area and a free name; it carries the name the naming step chose, which no existing layer has; its features are the grid's hexagons for the converted area, in completion order, under the single field `id` |

## Left out

- The Qt dialog, its widgets, buttons, file pickers and `processEvents` calls are not modelled. The model starts from the values the dialog hands over.
- Logging is not modelled.
- The extent lookup (`get_extent_from_layer`, `get_extent_from_shapefile`) reads QGIS layers and files. The extent is a parameter instead.
- The CRS, the QGIS memory layer and data provider, `addMapLayer`, and the shapefile writer are I/O. `Assembly.Layer` keeps only the layer's name, its field list and its features.
- The optional clip through `processing.run("qgis:clip")` (lines 384-391) is a QGIS geoprocessing algorithm called through the `processing` module, which the script never imports; its result is opaque.
- The thread pool is not modelled. The order in which tasks complete is a parameter `order`: any arrangement of the task indices.
- `math.sqrt` is not modelled. The radius and the square root of 3 are parameters, tied to the area by `HexGeometry.RadiusFor` and `IsRoot3`.
- `math.cos` and `math.sin` are not modelled. They are a parameter `Trig` of `Hexagon.CreateHexagon`. `Assembly.CreateHexagonalGrid`, `Assembly.StartProcessing` and `Assembly.HexagonHasRequestedArea` fix it to `ExactTrig(g.root3)`. The geometric lemmas need only the exact values at the six vertex angles, which `ExactTrig` supplies.
- Floating point is not modelled. All arithmetic is exact. Accumulated rounding in `x += width * 1.5` and `y += height * 0.5` can add or drop a centre near `x_max` or `y_max` in the script; the model does not show that.
- Assembly.ProgressPercent: computed as `current * 100` floor-divided by `total` in exact arithmetic. The script's float expression `int((current / total) * 100)` can come out one lower for some ratios.
- `QgsGeometry.fromPolygonXY` closes the ring by repeating the first vertex. The model keeps the six distinct vertices.
- The `strip()` of the unit text (line 212) is left out. The unit is taken as given.
- Exceptions in `create_hexagonal_grid` other than two are not modelled: the `TypeError` of a missing area (`None` from an unknown unit) and the `ValueError` that `math.sqrt` raises for a negative area. The script catches any exception there and returns `None`. An area of 0 raises nothing; see "Findings".
- An unknown unit gives `None`, as the code does (lines 318-320), and the grid step then yields no layer. The model does not turn it into an error that stops the run before any geometry work.
- Assembly.StartProcessing: the script chooses the layer name after converting the area and still builds the grid when the conversion gave `None`. The model computes both and states only the outcome, not the order of the steps.
- Assembly.StartProcessing: "a layer exactly for a positive area" is the corrected behaviour it takes from `Assembly.CreateHexagonalGrid`. For an area of 0 the script instead hangs when `y_min < y_max`, and otherwise adds an empty layer; see "Findings".
- Assembly.StartProcessing: the CRS lookup `mapLayersByName(layer_name)[0]` (line 228) sits outside the `try` of line 230. When the extent comes from a shapefile, `layer_name` is the combo box placeholder and no layer has that name, so indexing the empty list raises `IndexError`. The exception leaves the `start_processing` slot (the script never installs `handle_exception` of lines 38-55 as `sys.excepthook`), the OK and Cancel buttons disabled at lines 204-205 stay disabled, and no layer is made. The model has no CRS and no project lookup, so it does not show this path; its "a layer exactly when …" clause holds only when the lookup succeeds.
- Assembly.CreateHexagonalGrid: for an area of 0 on an extent with no height, the script's outer loop never runs and it returns an empty layer. The corrected model returns `None` for every area of 0 or less; see "Findings".

## Findings

| source | as written | input that shows it | evidently intended | confidence | as-written member | corrected member |
|---|---|---|---|---|---|---|
| HEXABIN_0.1.py:345-374 | the dialog's spin box allows an area of 0 (line 128); `create_hexagonal_grid` then computes radius 0, width 0 and height 0 without raising, and `y += height * 0.5` never moves `y` | area 0 with `y_min < y_max` (any width) | reject a non-positive area and return no layer, like the other failures of grid creation; the corrected member also returns `None` for area 0 on an extent with no height, where the script returns an empty layer | not executed | Assembly.ZeroAreaLoopsForever | Assembly.CreateHexagonalGrid |
