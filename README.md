# Elementary cellular automaton — a verified model

The program runs a one-dimensional, two-state cellular automaton in a terminal. A *rule* is
an 8-bit Wolfram code: bit `k` gives the next value of a cell whose 3-cell neighbourhood
`[left, centre, right]`, read as a binary number, is `k`. A generation is a row of cells.
The next generation applies the rule to every interior window of the row. The two outermost
cells follow an edge policy:
- **Copy** keeps them.
- **Crop** treats the missing neighbour as dead.
- **Wrap** takes the missing neighbour from the opposite end.

The row can be parsed from a text of `0`s and `1`s and is drawn with two characters per
cell. The run loop draws the current generation and computes the next into a second buffer.
It then swaps the two buffers. This repeats for a fixed number of generations, or until an
input event arrives.

The model has four modules:

- `Rules` (`rule.dfy`) models the rule code, `Apply` with the source's shift-and-mask, and
  the correspondence between a code and its 8-entry truth table.
- `CellSequence` (`cells.dfy`) covers the row:
  - the `Cells` buffer class;
  - the sliding windows and the edge pairs;
  - parsing, with its two error messages and the byte-length test;
  - the two-column rendering.
- `Stepper` (`step.dfy`) holds `EdgeHandling`, `Settings`, the pure next-generation function
  `NextGen`, and the `Step` method. `Step` clears and refills the spare buffer and returns
  the two buffers swapped. It is proved to produce `NextGen` of the front buffer.
  `NextGen` is proved equal to two independent reference automata: a row padded with dead
  cells, for Crop, and a ring, for Wrap.
- `Runner` (`run.dfy`) models the run loop. Event polling is a parameter
  `keyPending: nat -> bool`, where entry `i` says whether the poll after step `i` saw an input
  event. `Run` is proved to draw generations `0 .. steps - 1` and to hand back generation
  `steps`.

Two consequences of the code worth stating outright:

- Under Wrap, the new left boundary cell applies the rule to `[c[L-1], c[0], c[1]]`. The new
  right boundary cell applies it to `[c[L-2], c[L-1], c[0]]` (`src/main.rs:146-149`).
- Rule 90 from `00100` under Crop gives `01010` and then `10001` (`Runner.Rule90Scenario`).

## Model

| member | source | states |
|---|---|---|
| Rules.ApplyIsBit | src/main.rs:24-29 | Applying a rule gives bit `4*left + 2*centre + right` of its Wolfram code. |
| Rules.WolframExamples | src/main.rs:26-29 | Code 0 never sets a cell and code 255 always does. Code 2 sets a cell only for `[0, 0, 1]`. Code 90 gives the exclusive or of the two neighbours. |
| Rules.Outcomes | src/main.rs:18-29 | The truth table of a rule has 8 entries, and entry `Index(n)` is the outcome for neighbourhood `n`. |
| Rules.FromOutcomes | src/main.rs:18-29 | Packing an 8-entry table gives a rule whose outcome for every neighbourhood `n` is entry `Index(n)`. |
| Rules.OutcomesRoundTrip | src/main.rs:18-29 | Codes and truth tables are in one-to-one correspondence: packing the table of a code gives back the code, and the table of a packed table is that table. |
| CellSequence.Cells.NewRandom | src/main.rs:37-42 | A fresh buffer of exactly `width` cells, with cell `i` taken from the random source. |
| CellSequence.Neighborhoods | src/main.rs:44-50 | There are `L - 2` windows for a row of `L >= 3` cells, and none for a shorter row. |
| CellSequence.NeighborhoodsAt | src/main.rs:44-50 | Window `i` is cells `i`, `i + 1` and `i + 2`, in order. |
| CellSequence.EdgesAreEndChunks | src/main.rs:52-57 | The edge pairs are the first two cells and the last two cells. A row of at least 4 cells is its left pair, then its middle, then its right pair. |
| CellSequence.WindowsAndEdges | src/main.rs:44-57 | Each cell strictly between the ends is the centre of window `i - 1`. The first window starts with the left edge pair and the last window ends with the right edge pair. |
| CellSequence.Utf8Len | src/main.rs:65 | The byte length is at least the character count, and equals it exactly when every character is ASCII. |
| CellSequence.CellsOf | src/main.rs:68-76 | Mapping the characters succeeds exactly when all of them are `0` or `1`. On success, cell `i` is live exactly when character `i` is `1`. |
| CellSequence.Parse | src/main.rs:64-77 | Fewer than 3 bytes fails with the "at least 3 cells wide" message. Otherwise, any character that is not `0`/`1` fails with the "only contain" message. Otherwise parsing succeeds with one cell per character, in order. Success happens exactly when both tests pass. |
| CellSequence.ParseDigits | src/main.rs:64-77 | Parsing the digit string of a row of at least 3 cells gives back that row. Every text that parses is the digit string of its cells. |
| CellSequence.ParseExamples | src/main.rs:65-76 | `"1x"` fails as too short, not as non-binary. `"é0"` has two characters but three bytes, so it fails as non-binary. |
| CellSequence.Render | src/main.rs:80-90 | The rendered row has exactly two characters per cell. |
| CellSequence.RenderAt | src/main.rs:82-88 | Cell `i` is drawn at columns `2i` and `2i + 1`, as `██` when live and `╶╴` when dead. |
| CellSequence.RenderRoundTrip | src/main.rs:82-88 | The rendering determines the row: reading the glyphs back gives the cells, in order. |
| Stepper.InteriorAt | src/main.rs:154-156 | Interior cell `i` is the rule applied to window `i`. |
| Stepper.NextGen | src/main.rs:157-164 | The next generation has as many cells as the current one. |
| Stepper.NextGenInterior | src/main.rs:154-159 | Under every edge policy, cell `i` with `1 <= i <= L - 2` of the next generation is the rule applied to cells `i - 1`, `i` and `i + 1`. |
| Stepper.NextGenCell | src/main.rs:154-159 | States the same as `NextGenInterior`, for one interior index. |
| Stepper.CopyKeepsEdges | src/main.rs:141 | Under Copy, the first and last cells never change, whatever the rule. |
| Stepper.CropIsZeroPadded | src/main.rs:142-145 | Under Crop, the next generation equals the automaton over the row bordered by a dead cell on each side. |
| Stepper.CropCell | src/main.rs:142-145 | States the same as `CropIsZeroPadded`, for one cell. |
| Stepper.WrapIsCircular | src/main.rs:146-149 | Under Wrap, the next generation equals the automaton over the row closed into a ring: the first cell's left neighbour is the last cell and the last cell's right neighbour is the first. |
| Stepper.WrapCell | src/main.rs:146-149 | States the same as `WrapIsCircular`, for one cell. |
| Stepper.Step | src/main.rs:134-167 | The spare buffer ends up holding exactly `NextGen` of the front buffer, whatever it held before. The front buffer is unchanged. The two buffers come back swapped. |
| Runner.Generation | src/main.rs:176-185 | Every generation has the width of the initial row. |
| Runner.GenerationAdd | src/main.rs:176-185 | Running `j` generations and then `k` more is the same as running `j + k`. |
| Runner.FramesAt | src/main.rs:176-182 | Frame `j` is generation `j`, drawn after a line feed and carriage return. |
| Runner.Run | src/main.rs:171-192 | At most `generations` steps are taken, and fewer only when the poll after the last step saw an input event and none before it did. The frames drawn are generations `0 .. steps - 1`. The buffer handed back holds generation `steps`. |
| Runner.Rule90Scenario | src/main.rs:135-167 | From `00100` under Crop, rule 90 gives `01010` and then `10001`. |
| Runner.Rule90Padded | src/main.rs:142-145 | A row in which each cell is the exclusive or of its zero-padded neighbours is the next rule-90 Crop generation. |

## Left out

- Command-line parsing and the defaults `main` picks (`src/main.rs:104-124`, `204-227`) are library glue and terminal-size queries. `Settings` keeps the rule, the edge policy and the generation count, but not the delay.
- Terminal handling is I/O and is left out:
  - raw mode, the alternate screen and cursor hiding;
  - printing and its I/O errors, which are modelled as the list of frames written;
  - the I/O error that the poll itself can return (`src/main.rs:188`), and the read that
    consumes the pending event;
  - the final blocking wait for a key (`src/main.rs:194-199`).
- The delay of each poll is wall-clock behaviour. Each poll becomes the boolean `keyPending(i)`.
- The random number generator is not modelled: `NewRandom` takes its bits from a parameter `coin`. The row has `width / 2` cells, where `width` is the terminal width. A terminal under 4 columns gives fewer than 2 cells, and `edges` then panics on its `expect`. That is an environment condition, so `Run` requires at least 2 cells whenever a step is taken, instead of modelling the panic.
- Error pretty-printing through `MainResult` is left out.
- Stepper.Step: the `Vec` is modelled as a sequence field that is cleared and then extended one cell at a time, so its capacity and reuse of allocation are not modelled.
