# Doom fire, modelled in Dafny

This project models the fire simulation of `main.go`, the "Doom fire" animation written in Go with ebiten.

The `Game` holds two things:
- a framebuffer of heat intensities, 0 to 36, with `fireHeight` rows of `fireWidth` cells (row 0 at the top);
- a palette of 37 RGBA colours.

`NewGame` zeroes the framebuffer and sets the bottom row to 36. Each frame, `Update` calls `doFire`. `doFire` visits every column left to right and, in each column, rows 1 to `H-1` from top to bottom, calling `spreadFire(y*W + x)` for each cell. `spreadFire` picks a lateral offset in {-1, 0, 1} and aims at the flat index one row up, `from - W + offset`. If that index is inside the grid, it writes the source heat there, less a decay of 0 or 1 and clamped at 0. `Draw` turns every intensity into its palette colour, and `Layout` fixes the logical screen at 320 by 200.

Modules:
- `Palette` (`palette.dfy`): the colour table, written entry by entry (`PaletteEntry`) and gathered into the 37-entry sequence (`GeneratePalette`), and the intensity-to-colour lookup.
- `FireIndex` (`index.dfy`), the index arithmetic of `spreadFire`:
  - Go's truncating `/` and `%` (`GoQuo`, `GoRem`);
  - the target cell (`Dest`) and the source cell (`Source`);
  - the decayed value (`NewValue`).
- `FireGrid` (`grid.dfy`), the framebuffer as a value (`seq<seq<int>>`):
  - one `spreadFire` call (`Spread`);
  - the `doFire` sweep (`Calls`, `Sweep`);
  - successive frames (`Frames`);
  - the invariant every reachable frame satisfies (`FireInvariant`).
- `DoomFire` (`game.dfy`): the class `Game` over an `array2<int>` framebuffer, with `Init` (NewGame for any size), `SpreadFire`, `DoFire`, `Update`, `Draw` and `Layout`. The loop of NewGame that heats the bottom row is the method `HeatBottomRow`. The two loops of `doFire` are the method `SpreadColumns`, which `DoFire` calls before it re-establishes the game invariant. The inner loop (one column, rows 1 to `H-1`) is the method `SpreadColumn`, which `SpreadColumns` calls once per column. A ghost field `Cells` mirrors the array, and each method is proved to move it exactly as the `FireGrid` functions say.

Grid width and height are parameters (`W`, `H`, both at least 1). `NewGame` builds the program's 320 by 200 grid.

The model's inputs stand in for the random draws. Each `spreadFire` call receives a `Sample(offset, decay)`: `offset` is `rand.Intn(3) - 1` and `decay` is `rand.Intn(2)`. `doFire` receives the `W*(H-1)` samples of one frame in call order.

What the code does, as opposed to what its comments say:
- The column check on `dstX` (main.go:109) never rejects anything, because `to` has already been range-checked and `to % W` of a non-negative `to` always lies in `[0, W)`.
- Lateral offsets therefore wrap across rows:
  - a cell at `x = 0` with offset -1 writes the last cell two rows up, or nothing when `y = 1`;
  - a cell at `x = W-1` with offset +1 writes the first cell of its own row.
- As a result, the bottom row does not stay untouched, despite the comment at main.go:85:
  - the last cell of the grid, `(W-1, H-1)`, can overwrite the first bottom cell `(0, H-1)` with 35 or 36 (`BottomLeftCanCool` exhibits this on a 4 by 3 grid after one call);
  - every other bottom cell stays at 36 forever;
  - on a grid one cell wide, an offset of +1 aims at the source cell itself, so the only bottom cell loses the decay on every such frame (`WidthOneBottomCellCools`) and can cool all the way down to 0 (`WidthOneFireDiesOut`).
- The model follows the code here, so `FireInvariant` allows the first bottom cell to be 35.
- Palette entry 0 is opaque black, as `generatePalette` writes it. No intensity is drawn transparent.

## Model

| member | source | states |
|---|---|---|
| Palette.PaletteEntry | main.go:43-79 | The literal colour table, one case per intensity 0..36. Every entry is opaque. |
| Palette.GeneratePalette | main.go:41-81 | 37 entries. Every entry is opaque. Entry 0 is black and entry 36 is white. Entry `i` is `PaletteEntry(i)`. |
| Palette.PaletteBrightens | main.go:43-79 | Green and blue never decrease from one entry to the next. |
| Palette.ColorOf | main.go:130-134 | Every intensity 0..36 is a valid palette index. The colour is opaque, black for 0 and white for 36. |
| FireIndex.GoQuo | main.go:101-106 | Go's truncating `/`: the quotient never has the opposite sign of the dividend. How far `q*n` lies from the dividend is stated by `GoRem`. `RowMajorDecode` gives its value on row-major indices. |
| FireIndex.GoRem | main.go:101-105 | Go's `%`: it has the sign of the dividend and is smaller than the divisor in magnitude. For a non-negative dividend it lies in `[0, n)`. |
| FireIndex.RowMajorDecode | main.go:100-106 | Go's `/` and `%` by `w` split `y*w + x` back into row `y` and column `x`. |
| FireIndex.FlatIndexInGrid | main.go:100-106 | A flat index in `[0, w*h)` decodes to a column in `[0, w)` and a row in `[0, h)`. |
| FireIndex.Target | main.go:93 | The flat target `from - W + offset` is never after `from`, and lies within one cell of the cell straight above. |
| FireIndex.Dest | main.go:92-111 | `spreadFire` writes a cell exactly when `from - W + offset` lies in `[0, W*H)`. That cell is inside the grid and its flat index is the target, so the `dstX` check never fires. |
| FireIndex.Source | main.go:100-102 | A source index inside the grid decodes to the cell inside the grid whose flat index it is. |
| FireIndex.DestOfCell | main.go:92-111 | For source `(x, y)` with `y >= 1`, the written cell is one of three. It is `(x+offset, y-1)` when that column exists. At the left edge with offset -1, it is `(W-1, y-2)`, or nothing on row 1. At the right edge with offset +1, it is `(0, y)`. |
| FireIndex.DestInBottomRow | main.go:92-111 | Only the last cell of the grid with offset +1 can reach the bottom row, and it reaches column 0. |
| FireIndex.NewValue | main.go:114-117 | The decayed heat is the larger of 0 and `src - decay`. It is never negative and never below `src - decay`, and it is one of those two. |
| FireIndex.NewValueBounds | main.go:114-117 | The written value is never negative, never above the source value (or 0), and at most one below it. |
| FireGrid.InitialGrid | main.go:25-36 | The framebuffer NewGame builds, as a `w` by `h` grid. Its contents are given by `InitialGridIsValid`. |
| FireGrid.InitialGridIsValid | main.go:24-38 | After NewGame every cell is 0 except the bottom row, which is all 36. That frame satisfies `FireInvariant`. |
| FireGrid.Spread | main.go:91-119 | One `spreadFire` call keeps the grid's shape. Its meaning is given by `SpreadChangesOnlyTarget`, `SpreadWrittenValue`, `SpreadBottomRow`, `Dest` and `DestOfCell`. |
| FireGrid.SpreadChangesOnlyTarget | main.go:91-119 | `spreadFire` leaves the grid unchanged when the target is out of range, and never changes any cell but the one `Dest` names. |
| FireGrid.SpreadWrittenValue | main.go:113-118 | The target cell receives `max(0, src - decay)` of the source cell. |
| FireGrid.SpreadBottomRow | main.go:84-118 | One call leaves bottom columns 1..W-1 alone. The first bottom cell keeps its value or receives the decayed heat of the last bottom cell. |
| FireGrid.SpreadPreservesInvariant | main.go:91-119 | One call preserves `FireInvariant`: all cells in [0, 36], bottom columns 1..W-1 at 36, and the first bottom cell at least 35 (when `W >= 2`). |
| FireGrid.ColumnDecodes | main.go:85-87 | The `H-1` source indices of one column `x` all lie in `[W, W*H)`, and the cell spreadFire reads for the i-th of them is `(x, i+1)`: rows 1 to `H-1` of column `x`, from the top down. |
| FireGrid.Calls | main.go:84-88 | The source indices of the first `n` columns in visiting order, each column's `Column` (the inner loop's `y*W + x` for `y` from 1 to `H-1`) after the one before: `n*(H-1)` of them. Their positions are given by `SweepOrder`. |
| FireGrid.CallsInGrid | main.go:84-86 | Every source index `doFire` passes lies in `[W, W*H)`: it is inside the grid and below the top row. |
| FireGrid.Apply | main.go:84-88 | Spreading from each source index in turn, with its own sample, keeps the grid's shape. Its meaning is given by `ApplyPreservesInvariant` and `ApplyBottomRow`. |
| FireGrid.Sweep | main.go:83-89 | One `doFire` keeps the grid's shape. Its call order is given by `SweepOrder`, and its effect by `SweepPreservesInvariant` and `SweepBottomRow`. |
| FireGrid.SweepOrder | main.go:83-89 | `doFire` makes exactly `W*(H-1)` calls. Call `x*(H-1) + (y-1)` is for cell `y*W + x`, so columns run left to right and rows 1..H-1 run top down within a column. Equivalently, call `k` is for cell `(k % (H-1) + 1)*W + k / (H-1)`. |
| FireGrid.SweepPreservesInvariant | main.go:83-89 | A whole `doFire` preserves `FireInvariant`. |
| FireGrid.SweepBottomRow | main.go:83-89 | A whole `doFire` never changes bottom columns 1..W-1. When `W >= 2`, the first bottom cell ends with its old value or the last bottom cell's value less 0 or 1, clamped at 0. |
| FireGrid.SweepOneRow | main.go:83-89 | On a one-row grid `doFire` changes nothing. |
| FireGrid.Frames | main.go:122-125 | Successive `Update` frames keep the grid's shape. Their effect is given by `FramesPreserveInvariant`, `FramesKeepBottomRow` and `ReachableFrames`. |
| FireGrid.FramesPreserveInvariant | main.go:122-125 | Any number of `Update` frames preserve `FireInvariant`. |
| FireGrid.FramesKeepBottomRow | main.go:122-125 | Any number of frames leave bottom columns 1..W-1 unchanged. |
| FireGrid.ReachableFrames | main.go:24-38 | From NewGame and after any number of frames: every cell is in [0, 36], bottom columns 1..W-1 are 36, and the first bottom cell is 35 or 36 (when `W >= 2`). |
| FireGrid.BottomLeftCanCool | main.go:91-119 | On a 4 by 3 grid, the call for cell 11 with offset +1 and decay 1 sets bottom cell `(0, 2)` to 35. |
| FireGrid.WidthOneSweep | main.go:83-119 | On a 1 by 2 grid an offset of +1 is not rejected: one `doFire` with offset +1 and decay 1 sets the single bottom cell to its old value less one, clamped at 0. |
| FireGrid.WidthOneBottomCellCools | main.go:83-125 | On a 1 by 2 grid, after `n` frames of offset +1 and decay 1, the single bottom cell holds `max(0, v - n)`, where `v` is its starting value, for `v >= 0`. |
| FireGrid.WidthOneFireDiesOut | main.go:24-38 | From NewGame on a 1 by 2 grid, 36 such frames bring the bottom cell to 0. |
| DoomFire.Game.HeatBottomRow | main.go:33-35 | On a zeroed framebuffer, the loop leaves every bottom cell at 36 and every other cell at 0. |
| DoomFire.Game.Init | main.go:24-38 | NewGame for a `w` by `h` fire: the framebuffer is `InitialGrid(w, h)`, the palette is `generatePalette()`, and the game invariant holds. |
| DoomFire.Game.SpreadFire | main.go:91-119 | The framebuffer becomes `Spread` of the old one. The game invariant is preserved. |
| DoomFire.Game.DoFire | main.go:83-89 | The framebuffer becomes `Sweep` of the old one, with the calls in the order `SweepOrder` gives. The game invariant is preserved. |
| DoomFire.Game.SpreadColumns | main.go:84-88 | The two loops of `doFire`: the framebuffer becomes `Sweep` of the old one. |
| DoomFire.Game.SpreadColumn | main.go:85-87 | The inner loop for column `x`: the framebuffer moves from the sweep prefix at `x*(H-1)` calls to the one at `(x+1)*(H-1)` calls. |
| DoomFire.Game.Update | main.go:122-125 | One frame: the same as `DoFire`. |
| DoomFire.Game.Draw | main.go:128-136 | The screen has `H` rows of `W` colours. Every cell's intensity is a valid palette index, and the pixel at `(x, y)` is `ColorOf` of that cell. |
| DoomFire.Game.Layout | main.go:139-141 | The logical screen is `(screenWidth, screenHeight)`, 320 by 200, whatever the window size. That is also the size of the fire. |
| DoomFire.NewGame | main.go:24-38 | A fresh 320 by 200 game holding the initial frame, with the game invariant. |

## Left out

- `main` (main.go:143-150) and every ebiten call are thin glue: the window title and size, `RunGame`, and `log.Fatal`.
- `Draw` returns the colours row by row instead of calling `screen.Set`. The ebiten image is not modelled.
- `math/rand` is not modelled. Its draws are the `Sample` inputs, constrained to the ranges `rand.Intn(3) - 1` and `rand.Intn(2)` produce.
- The order of the two draws within a call is not modelled. The decay is part of every sample, even for calls that return before the source would draw it.
- `palette` holds `color.RGBA` values rather than the `color.Color` interface.
- `Update` returns no error, because the Go code always returns `nil`.
- DoomFire.Game.SpreadFire requires `from < W*H`. `doFire` always meets this, and a larger `from` can make the Go code index outside the framebuffer. A negative `from` is accepted and changes nothing, since its target is negative too.
- DoomFire.Game.DoFire and DoomFire.Game.Update take the grid size from the game, not from the package constants. With `NewGame` they are the same 320 by 200.
