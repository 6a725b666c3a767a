# GridLayer: a verified model of the traversability costmap layer

`GridLayer` is a plugin layer for a 2-D costmap. It receives a traversability
raster (a grid of "how hard is it to drive here" readings, some of them NaN)
and remaps it onto its own cost buffer. Each known reading is classified into
one of three cost levels and written at the destination cell its position
projects to. The layer reports a coarse update window, and later commits the
buffer into the master grid.

The Dafny project models the parts of `src/simple_layer/grid_layer.cpp` that
do not depend on trigonometry:

- `costmap.dfy` (module `Costmap`): the byte-sized cost values and the four
  named levels (FREE_SPACE 0, INSCRIBED_INFLATED_OBSTACLE 253,
  LETHAL_OBSTACLE 254, NO_INFORMATION 255, as the host costmap library defines
  them). It also holds `Index`, the row-major cell index `my * sizeX + mx`
  that the host's `getIndex` computes. `arith.dfy` holds the division facts
  behind it.
- `classification.dfy`: the three-way threshold rule on a reading.
- `center_offset.dfy`: the integer offset of a source cell from the raster
  centre, `cellsX/2 - i % cellsX` and `cellsY/2 - i / cellsY`. This is kept as
  written: the row term divides by the y cell count, not by the width.
- `remap.dfy`: the specification of one remap pass. `Remapped` is the buffer
  after visiting source cells in linear-index order. `Widen` is the window
  widening done after each write. The lemmas say which cell wins each buffer
  position.
- `merge.dfy`: the specification of the commit into the master grid.
- `grid_layer.dfy`: the class `GridLayer`. It has the cost buffer as an
  `array`, the latest snapshot, and the pending flag `newMap`. Its methods are
  initialisation, `MatchSize`, `ResetMaps`, `TopicCallback` (snapshot
  ingestion), `UpdateBounds` (the remap pass) and `UpdateCosts` (the commit).
  Each method's contract ties the new state to the specification functions.

A NaN reading is the `Unknown` case of `Reading`. The floating-point
reprojection of a centre offset is the parameter `project`. That covers the
square root, arctangent, cosine and sine with the robot's yaw, followed by the
host's world-to-map conversion. `project` maps the offset pair `(dx, dy)` to
`Some(cell)`, or to `None` when the point falls outside the grid. The
requirement `LandsIn` states the world-to-map contract: success only for cells
inside the grid.

## Model

| member | source | states |
|---|---|---|
| Classification.Classify | src/simple_layer/grid_layer.cpp:92-100 | FREE_SPACE iff v <= 0.5, INSCRIBED_INFLATED_OBSTACLE iff 0.5 < v <= 0.6, LETHAL_OBSTACLE iff v > 0.6; never NO_INFORMATION |
| Classification.ClassifyMonotone | src/simple_layer/grid_layer.cpp:92-100 | a larger reading never gets a cheaper cost |
| CenterOffset.OffsetX | src/simple_layer/grid_layer.cpp:82 | the x offset lies in (cellsX/2 - cellsX, cellsX/2] |
| CenterOffset.OffsetY | src/simple_layer/grid_layer.cpp:83 | the y offset (index divided by the y cell count) is at most cellsY/2 |
| CenterOffset.OffsetYRange | src/simple_layer/grid_layer.cpp:83 | on a cellsX-by-cellsY raster the y offset is above cellsY/2 - cellsX: its range depends on the x cell count |
| CenterOffset.OffsetXPeriodic | src/simple_layer/grid_layer.cpp:82 | the x offset repeats every cellsX indices |
| CenterOffset.OffsetYNonIncreasing | src/simple_layer/grid_layer.cpp:83 | the y offset never grows along the linear index |
| CenterOffset.OffsetsDistinctOnSquare | src/simple_layer/grid_layer.cpp:82-83 | on a square raster, distinct cells get distinct offset pairs |
| CenterOffset.OffsetsCollideWhenTaller | src/simple_layer/grid_layer.cpp:82-83 | when cellsX < cellsY, cells 0 and cellsX get the same offset pair, so they land on the same destination cell |
| Costmap.Index | src/simple_layer/grid_layer.cpp:130 | the index of an in-grid cell lies inside the buffer and gives the cell back by remainder and quotient, so distinct cells never share a position |
| Costmap.IndexCovers | src/simple_layer/grid_layer.cpp:130 | every buffer position is the index of exactly one in-grid cell |
| Remap.Widen | src/simple_layer/grid_layer.cpp:110-113 | the result is the smallest window that encloses the old one and [-100,100]²; a window already covering it is unchanged |
| Remap.Target | src/simple_layer/grid_layer.cpp:80-89 | a cell with an unknown reading is written nowhere |
| Remap.Step | src/simple_layer/grid_layer.cpp:77-106 | visiting one cell changes nothing unless it is written, and then only its own projected position, to a classified level |
| Remap.Remapped | src/simple_layer/grid_layer.cpp:74-121 | after the pass, every changed position holds a classified level (never NO_INFORMATION) |
| Remap.RemappedUntouched | src/simple_layer/grid_layer.cpp:80-89 | a position that no known, in-grid cell projects to keeps its old value |
| Remap.RemappedLastWrite | src/simple_layer/grid_layer.cpp:74-106 | a position holds the classified reading of the last cell in linear order that writes to it |
| Merge.MergeCell | src/simple_layer/grid_layer.cpp:131-133 | a master cell takes the layer value iff it is inside the window and not NO_INFORMATION; otherwise it keeps its value |
| Merge.Merged | src/simple_layer/grid_layer.cpp:127-136 | every merged position holds its old master value or a layer value that is not NO_INFORMATION |
| Merge.MergedAt | src/simple_layer/grid_layer.cpp:128-133 | cell (i, j) of the merged buffer is the window-and-sentinel choice between the master and layer cells |
| Merge.MergedIdempotent | src/simple_layer/grid_layer.cpp:127-136 | committing the same layer twice equals committing it once |
| Merge.MergedEmptyLayer | src/simple_layer/grid_layer.cpp:131-132 | a layer holding only NO_INFORMATION leaves the master grid unchanged |
| Merge.MergedFromCells | src/simple_layer/grid_layer.cpp:128-133 | agreeing with the commit cell by cell is agreeing with the merged buffer |
| GridLayer.GridLayer.constructor | src/simple_layer/grid_layer.cpp:13-19 | initialisation: nothing pending, an empty snapshot, a master-sized buffer of NO_INFORMATION |
| GridLayer.GridLayer.MatchSize | src/simple_layer/grid_layer.cpp:30-33 | the buffer takes the master grid's cell counts and holds NO_INFORMATION; the snapshot and flag are kept |
| GridLayer.GridLayer.ResetMaps | src/simple_layer/grid_layer.cpp:27 | every buffer cell becomes NO_INFORMATION |
| GridLayer.GridLayer.TopicCallback | src/simple_layer/grid_layer.cpp:24-28 | the new snapshot replaces the old one, the pending flag is set, and the buffer is cleared |
| GridLayer.GridLayer.UpdateBounds | src/simple_layer/grid_layer.cpp:47-125 | with the flag clear: buffer and window unchanged. With it set: the buffer becomes `Remapped`, the window is widened iff some cell was written, and then covers [-100,100]². The flag is clear afterwards and the window is never narrowed |
| GridLayer.GridLayer.UpdateCosts | src/simple_layer/grid_layer.cpp:127-136 | the master buffer becomes `Merged` of its old value and the layer buffer over the window, cell by cell; the layer buffer is not modified |

## Left out

- The reprojection at src/simple_layer/grid_layer.cpp:84-86 is not modelled. It uses `sqrt`, `pow`, `atan(cy/cx)`, `cos`, `sin` and the host's `worldToMap`. It is floating-point trigonometry, and it divides by zero when `cx == 0`. The parameter `project` stands for it.
- The robot pose arguments of `updateBounds` are dropped. Only the yaw is used, and only inside the reprojection.
- The source resolution multiplies the integer offsets only inside the reprojection, so the model does not carry it.
- The traversability reading is a `real`. NaN is the separate `Unknown` case. Infinities and rounding are not modelled.
- ROS node setup, the topic subscription, the plugin export and the message conversion `fromMessage` are not modelled, because they are I/O. A snapshot arrives as an already-converted `Raster`.
- UpdateBounds assumes every snapshot has a traversability layer. The source throws at line 52 when the layer is missing, and the throw leaves the pending flag set, so every later pass throws again. That error path is not modelled.
- The snapshot arrives asynchronously in the source. `TopicCallback` is a plain method call, so races with a running pass are not modelled.
- The unused `x_ratio`/`y_ratio` computation (lines 67-71) and the commented-out tight bounds (lines 115-118) are not modelled, because they are dead code.
- `resizeMap`, `resetMaps`, `getIndex` and `setCost` belong to the host costmap library, whose source is not part of this model. `resizeMap` is taken to allocate a buffer filled with the default value, which initialisation sets to NO_INFORMATION. `resetMaps` is taken to fill the buffer with that value. `getIndex(i, j)` is taken to be `j * sizeX + i`. `setCost` is taken to be an array write.
- The master grid of `updateCosts` is an array of the same cell counts as the layer, which `matchSize` keeps in step. The master grid's own class is not modelled.
- The window bounds passed to `updateCosts` are assumed to lie inside the grid, as the host clamps them. The source indexes the buffer without checking.
