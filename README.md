# Grid layout of the GridSystem component

A Dafny model of the grid bookkeeping in the Unity component `GridSystem` and of its size-list
entry `FixedCellSizes`.

The component lays a rectangle of `GridSize` world units centred on its object's position. It
tiles that rectangle with square cells whose side is the selected cell size. This model covers
five pieces:

- **The list of offered cell sizes.** The list holds every whole number `i` from 1 up to the
  grid's width such that both the width and the depth divide evenly by `i`. Each entry is named by
  the decimal digits of its size.
- **Size selection.** Each entry has an enabled flag. The editor pass turns an entry on when
  reading its name from the preference store gives back its name; a missing key reads as the
  empty string, so an entry with an empty name is turned on by any store without that key. The play-mode pass writes every enabled name back
  into the store. Both passes take the size of the last enabled entry.
- **Cell counts and corners.** Each count is the rounded ratio of extent to cell size, clamped at
  999. Each corner lies half an extent from the anchor, and the extent is also clamped at 999.
- **Cell placement.** A cell sits at its centre, counted inwards from one of the four corners.
- **The cell array.** Both passes fill an array with one cell per position.

Modules, one per concern:

| module | file | holds |
|---|---|---|
| `Rounding` | rounding.dfy | `Mathf.RoundToInt`: round half to even |
| `Decimal` | decimal.dfy | `int.ToString()`, the decimal rendering used for entry names |
| `Prefs` | prefs.dfy | reading the preference store: a missing key reads as `""` |
| `Selection` | selection.dfy | entry values; the enable step; "last enabled wins"; what play mode stores |
| `Geometry` | geometry.dfy | vectors, cell counts, corners, cell centres |
| `Divisors` | divisors.dfy | the list a rebuild produces |
| `CellSizeEntry` | fixed_cell_sizes.dfy | the `FixedCellSizes` class |
| `Grid` | grid_system.dfy | the `GridSystem` class: its fields, the two passes and their steps |

Points where the model follows the code as written:

- **The corners form a true rectangle.** The code writes the right-hand corners as
  `position - Vector3.left * w/2`, which equals `+ right * w/2`. So the four corners are distinct
  whenever both extents are positive (`BoundsRectangle`).
- **Size 0 is never offered.** The divisor loop starts at `i = 0`. A floating-point remainder by
  zero is NaN, and NaN equals nothing, so 0 fails the test.
- **Rounding is half to even.** `Mathf.RoundToInt` rounds ties to the even integer, not away from
  zero.
- **The two clamps use different units.** The count clamp is in cells, the extent clamp in world
  units. Past 999 units, cells can run beyond the corners. That happens when the counted cells
  span more than the clamped extent (count × cell size > 999). The last centre itself lies
  outside once (count − 1/2) × cell size > 999. A 1500-wide grid of 2-unit cells is such a case
  (`ClampedCellsOutsideBounds`). A 1000-wide grid of 3-unit cells is not: 333 × 3 is exactly 999.
  The in-bounds results are stated for extents up to 999.
- **The remembered grid size is not saved with the scene.** After a reload it is zero, so the
  next editor pass rebuilds the list with every flag off, unless the grid size is itself zero:
  then the two sizes are equal and the list is kept as saved. The selection then comes back only
  through the preference store: `RestoreAfterReload` proves that it comes back exactly.
- **The preference store is an explicit value.** The engine's global `PlayerPrefs` store is a
  `map<string, string>` that each pass takes as an argument, and whose new contents each pass
  returns. The object position (`transform.position`) is also a parameter.

## Model

| member | source | states |
|---|---|---|
| `Rounding.RoundHalfEven` | Assets/Scripts/GridSystem.cs:178-179 | the result is within 1/2 of the input; on a tie it is even |
| `Rounding.RoundHalfEvenUnique` | Assets/Scripts/GridSystem.cs:178-179 | an integer within 1/2 of the input, even on a tie, is the rounded value |
| `Rounding.RoundOfInteger` | Assets/Scripts/GridSystem.cs:178-179 | a whole ratio rounds to itself |
| `Geometry.CellCount` | Assets/Scripts/GridSystem.cs:178-179 | the count never exceeds `MaxGridSize` (999); below 999 it is within 1/2 of `size / cellSize` and even on a tie; at 999 the ratio is above 998.5, since a ratio of exactly 998.5 rounds to the even 998 |
| `Geometry.CellCountExact` | Assets/Scripts/GridSystem.cs:178-179 | when `k` cells (k at most 999) tile the extent exactly, the count is `k` |
| `Geometry.CellCountUnique` | Assets/Scripts/GridSystem.cs:178-179 | any integer meeting the clauses of `CellCount` (at most 999; below 999 within 1/2 of the ratio and even on a tie; at 999 a ratio above 998.5) is the count |
| `Geometry.Width` | Assets/Scripts/GridSystem.cs:181-184 | the extent used along X is the grid width or 999, whichever is smaller |
| `Geometry.Depth` | Assets/Scripts/GridSystem.cs:181-184 | the extent used along Z is the grid depth or 999, whichever is smaller |
| `Geometry.ComputeBounds` | Assets/Scripts/GridSystem.cs:181-184 | the corners are `anchor ± (w/2)·right ± (d/2)·forward`, where `w` and `d` are the extents clamped at 999, and each corner is at the anchor's height |
| `Geometry.BoundsRectangle` | Assets/Scripts/GridSystem.cs:181-184 | opposite sides are `w` and `d` long; both diagonals have the anchor as midpoint; with positive extents the four corners are pairwise distinct |
| `Geometry.CellCenter` | Assets/Scripts/GridSystem.cs:193-218 | the four-way case split on the start corner; what it places where is stated by `CellCenterOffsets` and the lemmas after it |
| `Geometry.CellCenterOffsets` | Assets/Scripts/GridSystem.cs:197-215 | cell (x, z) is its origin corner moved inwards by (x + 1/2) cells along X and (z + 1/2) cells along Z, at the corner's height |
| `Geometry.GridCellCentre` | Assets/Scripts/GridSystem.cs:193-218 | for the computed corners, the centre of cell (x, z) in world coordinates, for each origin corner |
| `Geometry.CellCenterStepX` | Assets/Scripts/GridSystem.cs:197-215 | the next column is exactly one cell size further inwards along X, with the same y and z |
| `Geometry.CellCenterStepZ` | Assets/Scripts/GridSystem.cs:197-215 | the next row is exactly one cell size further inwards along Z, with the same x and y |
| `Geometry.CellCenterInBounds` | Assets/Scripts/GridSystem.cs:176-218 | for extents up to 999, every counted cell's centre lies within the corner rectangle, at the anchor's height |
| `Geometry.CellCenterStrictlyInBounds` | Assets/Scripts/GridSystem.cs:176-218 | for extents up to 999, when the cell size tiles both extents exactly, every cell centre lies strictly inside the rectangle |
| `Geometry.CellCenterMirror` | Assets/Scripts/GridSystem.cs:197-215 | for extents up to 999, under an exact tiling, each origin corner only renumbers the cells: its numbering is the bottom-left one, mirrored on each axis it counts backwards |
| `Geometry.TilingCounts` | Assets/Scripts/GridSystem.cs:178-179 | under an exact tiling with at most 999 cells per side, the mirror's cell numbers are the grid's own counts |
| `Geometry.ClampedCellsOutsideBounds` | Assets/Scripts/GridSystem.cs:178-184 | a 1500 by 10 grid of 2-unit cells has 750 by 5 cells, and its last column lies outside the corners |
| `Decimal.NatToString` | Assets/Scripts/GridSystem.cs:233 | the name is a non-empty string of decimal digits, with no leading zero except for 0 itself |
| `Decimal.DecimalRoundTrip` | Assets/Scripts/GridSystem.cs:233 | reading the digits back gives the size |
| `Decimal.NatToStringInjective` | Assets/Scripts/GridSystem.cs:233 | different sizes get different names |
| `Divisors.RemIsZero` | Assets/Scripts/GridSystem.cs:231 | the float test `v % i == 0`: false for `i = 0`, whose remainder is NaN; otherwise true exactly when `v / i` is a whole number |
| `Divisors.IsCommonDivisor` | Assets/Scripts/GridSystem.cs:231 | both sides pass the remainder test for `i`; `IntegerGridDivisors` relates it to integer divisibility |
| `Divisors.CommonDivisorsUpTo` | Assets/Scripts/GridSystem.cs:229-237 | the sizes the loop has added once its counter has reached `n`; characterised by `CommonDivisorsUpToMembers` and `CommonDivisorsUpToAscending` |
| `Divisors.DivisorSizes` | Assets/Scripts/GridSystem.cs:229-237 | the sizes the whole loop adds, from `i = 0` to the width; characterised by `DivisorSizesMembers` and `DivisorSizesAscending` |
| `Divisors.CommonDivisorsUpToMembers` | Assets/Scripts/GridSystem.cs:229-237 | after the loop has reached `n`, the list holds exactly the `i` in 1..n that pass both remainder tests |
| `Divisors.CommonDivisorsUpToAscending` | Assets/Scripts/GridSystem.cs:229-237 | after every step of the loop, the list is strictly ascending |
| `Divisors.DivisorSizesMembers` | Assets/Scripts/GridSystem.cs:229-237 | a size is offered exactly when it is a whole number, at least 1, at most the width, and passes both remainder tests; so 0 is never offered |
| `Divisors.DivisorSizesAscending` | Assets/Scripts/GridSystem.cs:229-237 | the offered sizes are strictly ascending |
| `Divisors.IntegerGridDivisors` | Assets/Scripts/GridSystem.cs:231 | for whole-number dimensions, the floating-point remainder test is integer divisibility of both sides |
| `Divisors.DivisorSizesTwelveByEighteen` | Assets/Scripts/GridSystem.cs:229-237 | a 12 by 18 grid offers 1, 2, 3 and 6 |
| `Divisors.DivisorSizesSevenByEleven` | Assets/Scripts/GridSystem.cs:229-237 | a 7 by 11 grid offers only 1 |
| `Divisors.DivisorSizesZeroWidth` | Assets/Scripts/GridSystem.cs:229-237 | a grid of width 0 offers nothing |
| `Divisors.OptionsForAppend` | Assets/Scripts/GridSystem.cs:235 | appending a size to the list appends its entry |
| `Divisors.SizeOptionFor` | Assets/Scripts/GridSystem.cs:233 | the entry for size `i` is named by decimal digits that read back as `i`, has size `i`, and starts disabled |
| `Divisors.SizeOptions` | Assets/Scripts/GridSystem.cs:227-237 | the rebuilt list, one entry per offered size in order; its shape is stated by `SizeOptionsWellFormed` |
| `Divisors.SizeOptionsWellFormed` | Assets/Scripts/GridSystem.cs:227-237 | a rebuilt entry is disabled; names are non-empty and pairwise distinct; sizes are at least 1, at most the width, common divisors, and strictly ascending |
| `Prefs.Lookup` | Assets/Scripts/GridSystem.cs:244 | `PlayerPrefs.GetString(key)`: the stored value, or the empty string for a missing key |
| `Selection.Enable` | Assets/Scripts/GridSystem.cs:244-247 | one step of the editor pass: name and size are kept; the entry ends enabled exactly when it was enabled or reading its name from the store (the empty string if absent) gives back its name |
| `Selection.Selected` | Assets/Scripts/GridSystem.cs:242-248 | names and sizes are kept; no entry is disabled; an entry ends enabled exactly when it was enabled already or reading its name from the store (the empty string if absent) gives back its name |
| `Selection.LastEnabledSize` | Assets/Scripts/GridSystem.cs:249-252 | the size a left-to-right scan ends with when each enabled entry overwrites it; stated by `LastEnabledSizeNone` and `LastEnabledSizeIsLast` |
| `Selection.LastEnabledSizeNone` | Assets/Scripts/GridSystem.cs:249-252 | with no entry enabled, the size keeps its previous value |
| `Selection.LastEnabledSizeIsLast` | Assets/Scripts/GridSystem.cs:249-252 | otherwise the size is that of the last enabled entry |
| `Selection.LastEnabledExists` | Assets/Scripts/GridSystem.cs:249-252 | a list with an enabled entry has a last enabled entry |
| `Selection.LastEnabledSizeSource` | Assets/Scripts/GridSystem.cs:249-252 | the chosen size is the previous one or the size of an enabled entry |
| `Selection.LastEnabledSizeStable` | Assets/Scripts/GridSystem.cs:249-252 | scanning the same list again from the chosen size changes nothing |
| `Selection.SelectionIdempotent` | Assets/Scripts/GridSystem.cs:242-253 | a second editor pass with the same store changes neither the flags nor the size |
| `Selection.Remember` | Assets/Scripts/GridSystem.cs:140-148 | the store after the play-mode loop has written each enabled name under itself; stated by `RememberSpec` |
| `Selection.RememberSpec` | Assets/Scripts/GridSystem.cs:140-148 | after play mode, every enabled name is stored under itself; every other key keeps its value or stays absent |
| `Selection.RememberThenSelect` | Assets/Scripts/GridSystem.cs:140-148 | if names are non-empty and distinct, reading back from an empty store what play mode wrote restores exactly the flags that were set |
| `CellSizeEntry.FixedCellSizes.constructor` | Assets/Scripts/FixedCellSizes.cs:10-14 | the name and the size are stored unchanged; the entry starts disabled |
| `Grid.GridSystem.constructor` | Assets/Scripts/GridSystem.cs:15-32 | the inspector fields as given; size 1; no cells; remembered grid size zero |
| `Grid.GridSystem.SetStartVector` | Assets/Scripts/GridSystem.cs:193-218 | the centre of cell (x, z) for the component's start corner, corners and size: `CellCenter` of those fields |
| `Grid.GridSystem.GetBestCellSizes` | Assets/Scripts/GridSystem.cs:223-254 | the list is the rebuilt list when the grid size differs from the remembered one, and is otherwise the same entries; then the store's flags are applied; the size is the last enabled entry's, or the previous size; afterwards the remembered size is the grid size; after a rebuild the discarded entries are untouched |
| `Grid.GridSystem.RebuildCellSizes` | Assets/Scripts/GridSystem.cs:225-240 | the list becomes fresh entries whose values are the rebuilt list for the grid size, and the grid size is remembered |
| `Grid.GridSystem.DivisorEntries` | Assets/Scripts/GridSystem.cs:229-237 | the loop: the entries it creates have the rebuilt list's values, and are fresh and distinct |
| `Grid.GridSystem.ApplyPreferences` | Assets/Scripts/GridSystem.cs:242-253 | the entries end as `Selected` of their old values, and the size as the last enabled entry's, or the previous size |
| `Grid.GridSystem.ScanEntries` | Assets/Scripts/GridSystem.cs:242-253 | the loop: each entry is enabled from the store, and the size ends as the last enabled one of the selected list |
| `Grid.GridSystem.SetGridSizeAndBounds` | Assets/Scripts/GridSystem.cs:176-185 | the counts are `CellCount` of each extent, and the corners are `ComputeBounds` of the anchor |
| `Grid.GridSystem.GenerateCells` | Assets/Scripts/GridSystem.cs:106-124 | allocation succeeds exactly when both counts are non-negative; the new array is `CellSizeX` by `CellSizeZ` and holds, at every (x, z), the cell at `SetStartVector(x, z)`; on failure the old array is kept |
| `Grid.GridSystem.LayOutGrid` | Assets/Scripts/GridSystem.cs:150-170 | the counts and the corners for the current sizes, then the filled array; the list, the entries and the size are untouched |
| `Grid.GridSystem.GenerateGridOnPlay` | Assets/Scripts/GridSystem.cs:133-171 | the list is unchanged; the size is the last enabled entry's; the store gains each enabled name under itself; the grid is laid out as by `LayOutGrid` |
| `Grid.GridSystem.RememberEnabledSizes` | Assets/Scripts/GridSystem.cs:140-148 | the loop: the size ends as the last enabled entry's, and the store as `Remember` of the list |
| `Grid.GridSystem.GenerateEditorGrid` | Assets/Scripts/GridSystem.cs:90-128 | the list, its entries and the size as `GetBestCellSizes` leaves them: the same entry objects when nothing is rebuilt, and after a rebuild fresh entries with the discarded ones untouched; the grid laid out; the store emptied when the cells were allocated, and otherwise unchanged |
| `Grid.RestoreAfterReload` | Assets/Scripts/GridSystem.cs:223-254 | after a reload, the list is rebuilt with every flag off; reading back from an empty store what play mode wrote then gives exactly the list that play mode saw |

## Left out

- Gizmo drawing (`OnDrawGizmos`) and the child activation it does are engine rendering. They are the only users of `CellSpacing` and of the `Display…` flags, so those fields are not modelled.
- Engine object work is foreign engine calls: instantiating the cell prefab, destroying child objects, and setting a label's text and character size. The model assumes these calls return normally. In the source, `Instantiate` throws when `CellPrefab` is unassigned, and setting the label throws when the prefab has no `TextMesh` child; the fill loop then stops with the array partly filled, and in the editor pass `PlayerPrefs.DeleteAll()` is not reached, so the store keeps its contents.
- The label text is float-to-string formatting of `Vector3`.
- The editor's deferred call (`delayCall`), its `Application.isPlaying` guard, and the `Start` and `OnValidate` hooks are engine scheduling. `GenerateEditorGrid` is the body of the deferred call.
- Persistence of `PlayerPrefs` to disk is engine I/O; the store is an in-memory map.
- Floats are exact reals. The model does not capture IEEE rounding, float precision of the loop counter `i <= GridSize.x`, or the tolerance of Unity's `Vector2 ==`, which compares approximately. The grid-size comparison is exact equality here.
- The model does not capture 32-bit overflow of `RoundToInt` or of the divisor loop counter; integers are unbounded. For a width of 2^31 or more the counter `i` wraps around, so `i <= GridSize.x` never becomes false and the editor pass does not return; the model's loop terminates only because its integers are unbounded.
- An out-of-range `GridCellStart` value would leave the position at the zero vector. The enum here has only its four values.
- `Grid.GridSystem.GetBestCellSizes` requires every entry's size to be positive and the entries to be distinct objects (`Valid`), and so do `Grid.GridSystem.constructor`, the two passes and their steps. Rebuilt entries always have sizes of at least 1, and serialized lists hold one object per element. Division by a zero size is not modelled.
- `Grid.GridSystem.GenerateCells`: the allocation's exception for a negative count is modelled as `ok == false`, with the rest of the pass skipped. The engine's error logging is not modelled.
- A `Cell` is a value holding its world position. The `Cell` class is not part of this model.
- The passes build the rebuilt list locally, then store it in the field once. Clearing the list in place and adding one entry at a time produce the same final list.
