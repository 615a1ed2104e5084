# Wireworld Valentine: a verified model of the transition engine

This project models the core of the `WireworldValentine` Ruby class: a
Wireworld cellular automaton on a fixed-size grid. Each cell is `EMPTY`,
`ELECTRON_HEAD`, `ELECTRON_TAIL` or `CONDUCTOR`. One tick derives the next
generation from the current one.

- `wireworld.dfy`, module `Wireworld`: the pure definitions the engine is
  proved against.
  - The cell states are the datatype `Cell`, not glyph strings.
  - Grids are `seq<seq<Cell>>`.
  - The Moore-neighbourhood sample (`Neighbors`) is generated from a table of
    the eight offsets, in the order the Ruby sampler uses. It is the reference
    definition of what `get_neighbor_value` returns.
  - `Count` is the reference definition of `Array#count`: how many elements
    of a sample equal a given state.
  - `WindowCount` defines the 3 x 3 neighbourhood independently, cell by cell
    in row-major order.
  - `NextState` is the per-cell rule and `Step` one synchronous generation.
  - `Generation` is n generations.
  - The module also holds the lemmas relating these definitions.
- `engine.dfy`, module `Engine`: the class `WireworldValentine`.
  - It has the fields `rows`, `cols` and `grid`.
  - The constructor builds the all-`Empty` grid.
  - `NeighborValues` is the eight conditional appends of `get_neighbor_value`.
  - `Tick` fills a fresh all-`Empty` grid with nested loops, then swaps it in
    as `tick` does. It is proved to produce `Step` of the pre-tick grid.

Every cell always holds one of the four states because `Cell` has exactly
these four constructors. Determinism also needs no proof: `Tick` is specified
by the function `Step` of the old grid, so two engines with equal grids end
with equal grids.

## Model

| member | source | states |
|---|---|---|
| `Engine.WireworldValentine.constructor` | wireworld_valentine.rb:13-17 | the engine has the given `rows` and `cols`; its grid has exactly `rows` rows of `cols` cells, and every cell is `Empty` |
| `Engine.WireworldValentine.NeighborValues` | wireworld_valentine.rb:43-62 | the eight conditional appends produce exactly `Neighbors`: the in-bounds cells at the offsets left, right, top, bottom, top-left, top-right, bottom-left, bottom-right, in that order; the method has no `modifies` clause, so it changes nothing |
| `Engine.WireworldValentine.Tick` | wireworld_valentine.rb:65-87 | `rows` and `cols` are unchanged and the grid is still `rows` x `cols`; the new grid equals `Step` of the pre-tick grid; every new cell is `NextState` of its old state and the number of heads in its old 3 x 3 neighbourhood |
| `Wireworld.EmptyGrid` | wireworld_valentine.rb:16 | the grid built for construction and at the start of a tick has `rows` rows of `cols` cells, all `Empty` |
| `Wireworld.CountAppend` | wireworld_valentine.rb:73 | the count of a state in a sample, as `Array#count` gives it, is additive: the count over a concatenation is the sum of the counts over its parts |
| `Wireworld.NeighborsUnfold` | wireworld_valentine.rb:45-60 | the offset-table sample equals the eight per-direction pieces in source order, each a one-cell sequence when the cell is in the grid and empty otherwise |
| `Wireworld.NeighborCount` | wireworld_valentine.rb:46-60 | the sample length is (rows in reach) x (columns in reach) - 1, where in-reach counts the in-grid positions among r-1, r, r+1; there is no wraparound |
| `Wireworld.CornerHasThree` | wireworld_valentine.rb:46-60 | on a grid of at least 2 x 2, a corner cell has 3 neighbours |
| `Wireworld.EdgeHasFive` | wireworld_valentine.rb:46-60 | on a grid of at least 2 x 2, a border cell that is not a corner has 5 neighbours |
| `Wireworld.InteriorHasEight` | wireworld_valentine.rb:46-60 | a cell off the border has 8 neighbours |
| `Wireworld.NeighborsCount` | wireworld_valentine.rb:43-62 | for every state x, the sample holds as many x cells as the in-grid 3 x 3 block around the cell, centre excluded: the sample is exactly the Moore neighbourhood, as a multiset |
| `Wireworld.NeighborsLocal` | wireworld_valentine.rb:43-62 | two grids of the same shape that agree on a cell's 3 x 3 block give that cell the same sample |
| `Wireworld.NextState` | wireworld_valentine.rb:72-83 | which old states lead to each new state: `Empty` only from `Empty`; `ElectronTail` exactly from `ElectronHead`; `ElectronHead` exactly from a `Conductor` with 1 or 2 head neighbours; `Conductor` from `ElectronTail` or from a `Conductor` with another head count |
| `Wireworld.Step` | wireworld_valentine.rb:67-86 | one generation keeps the number of rows and every row's length, and the result is rectangular |
| `Wireworld.StepRule` | wireworld_valentine.rb:72-83 | the new cell is `NextState` of the old cell and its old neighbourhood's head count; so `Empty` stays `Empty`, `ElectronHead` becomes `ElectronTail`, `ElectronTail` becomes `Conductor`, and `Conductor` becomes `ElectronHead` iff it has 1 or 2 head neighbours, otherwise it stays `Conductor` |
| `Wireworld.StepLocal` | wireworld_valentine.rb:69-73 | the update is synchronous and local: a new cell depends only on the old grid's 3 x 3 block around it |
| `Wireworld.QuietIsFixedPoint` | wireworld_valentine.rb:72-83 | a grid with no `ElectronHead` and no `ElectronTail` is a fixed point of one step |
| `Wireworld.Generation` | wireworld_valentine.rb:65-87 | n repeated ticks keep the grid's shape |
| `Wireworld.QuietForever` | wireworld_valentine.rb:72-83 | a grid without electrons is unchanged after any number of generations |
| `Wireworld.RowOfThree` | wireworld_valentine.rb:65-87 | the row `[ElectronHead, ElectronTail, Conductor]` becomes `[ElectronTail, Conductor, Conductor]`: the third cell sees only the old tail |
| `Wireworld.ConductorBesideHead` | wireworld_valentine.rb:72-75 | the centre conductor of a 3 x 3 grid whose only head is directly above it becomes a head |

## Left out

- `self.load` (wireworld_valentine.rb:19-30) is not modelled. It reads a file with `readlines` and overwrites `@grid` with `instance_variable_set`. It checks neither row lengths nor glyphs. The model always starts from the constructor's all-`Empty` grid.
- `display` (wireworld_valentine.rb:32-36) is not modelled: it clears the terminal and prints, which is pure I/O.
- `run` (wireworld_valentine.rb:89-95) is not modelled: it is a display-tick-sleep loop. Its inclusive range `0..steps` performs `steps + 1` ticks, and with the default `nil` it never stops. `Wireworld.Generation` gives "exactly n generations" instead.
- The top-level call and the embedded Valentine circuit after `__END__` (wireworld_valentine.rb:98-150) are input data, not logic.
- Glyph strings: the four emoji constants (wireworld_valentine.rb:8-11) are the constructors of `Cell`. String comparison and encoding are not modelled.
- Negative dimensions: the constructor takes `nat`. In Ruby a negative `rows`, or a negative `cols` with `rows > 0`, makes `Array.new` raise; a negative `cols` with `rows == 0` gives an engine with an empty grid and a negative `@cols`. The model represents neither case.
- Ruby arrays are mutable references. The model's grids are values: `new_grid` becomes a local sequence that `Tick` updates cell by cell, and the final assignment replaces the field. So aliasing between `@grid` and other references to it is not modelled.
- `Engine.WireworldValentine.NeighborValues` requires an in-bounds cell of a rectangular grid: `get_neighbor_value` (wireworld_valentine.rb:43-62) does no bounds check (a negative index wraps to the end of the array, and a row past the end gives `nil`, so the next index raises), and `tick`, its only caller, passes only in-bounds cells.
