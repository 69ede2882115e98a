# Matrix rain and vision — a Dafny model

The program draws the "Matrix" digital rain on a full-screen surface. It has two modes, switched with the space key:

- **Rain mode.** Columns of falling katakana glyphs fade in over time.
- **Camera mode.** A grid of glyphs is drawn over the camera image, each glyph shaded by the brightness of the pixel under it.

This project models the state logic of both modes, with pygame, numpy's random generator and the camera replaced by plain inputs. The modules are:

- `Alphabet` (alphabet.dfy). The 106-entry glyph alphabet: 96 katakana from U+30A0, then 10 empty strings. Also the font size (23 pixels) and the floor division that sizes the grid.
- `Grid` (grid.dfy). The value-level specification of `MatrixVision.shift_column`. A column qualifies when any of its cells' scroll speeds divides the tick. Each qualifying column is rolled down by one row, circularly. The laws proved, each for one tick and for any sequence of ticks, are:
  - each column keeps its multiset;
  - the grid stays inside its value range.

  Over many ticks, a column is also rolled once per tick on which it qualifies, so `ROWS` qualifying ticks restore it.
- `GridChange` (grid_change.dfy). The value-level specification of `MatrixVision.change_chars`. Every cell whose change interval divides the tick is overwritten by a fresh pick. Picks are taken in row-major order, which is the order `np.argwhere` lists the cells. Every other cell is kept.
- `Luminance` (luminance.dfy). The per-cell draw decision of `MatrixVision.draw`, as pure functions:
  - decode the mapped pixel into red, green and blue;
  - take the floored mean of the channels;
  - collapse the open band (160, 220) to 220;
  - set the opacity to the shade plus 60.

  It also covers the glyph cache built by `get_rendered_chars`, which a drawn cell never misses.
- `Vision` (vision.dfy). `MatrixVision` as a class. The character grid is an `array2<int>` of alphabet positions, updated in place. Its methods are:
  - `ShiftColumn`, `ChangeChars` and `Draw`, each proved against the value-level specification above;
  - `Run`, which performs the three in the order the code does.
- `Rain` (rain.dfy). `Symbol` and `SymbolColumn` as classes. A symbol falls by its speed and wraps to one cell above the top once past the bottom edge. It re-picks its glyph on ticks divisible by its interval: the column head takes from the light-green pool and the others from the green pool. A column is `column_height` symbols one cell apart going upward, all sharing one speed.
- `Fade` (fade.dfy). The rain surface's opacity and the mode flag of `Matrix`:
  - the opacity starts at `alpha if alpha else 50`;
  - it grows by 3 on ticks divisible by 20 while below 150 and in rain mode;
  - the mode flips on every space press.

  `HelloNeo` runs the loop over a finite trace of (space held, tick) inputs.

Random choices are inputs. A caller supplies:
- the initial grid, intervals and speeds;
- the picks for `change_chars`, one per due cell;
- the picks for each symbol's glyph;
- the column height, speed and start position.

Each has the range its generator draws from as a precondition. The millisecond tick counter `pygame.time.get_ticks()` is a natural-number parameter. Each symbol of a rain column reads the clock itself, so a column draw takes one tick per symbol. The camera frame is a parameter too: a screen-sized grid of 32-bit mapped pixel values.

Behaviours of the code that are easy to misread:
- **Order of updates.** `run` calls `change_chars` before `shift_column`, so a freshly picked character is shifted on the same tick (main.py:41-42).
- **Starting opacity.** The program is started with `alpha=0`. Zero is falsy, so `alpha if alpha else 50` gives 50 (main.py:90, 163).
- **Opacity ceiling.** The test `alpha_value < 150` runs before `alpha_value += 3`, so from 50 the opacity goes up to 152 (main.py:124-125).
- **Glyph opacity.** The opacity set on a vision glyph is `color + 60`, which reaches 315 when the shade is 255, above the 255 an opacity holds (main.py:67).

## Model

| member | source | states |
|---|---|---|
| Alphabet.Glyph | main.py:82 | Position i < 96 holds the single character U+30A0 + i; positions 96..105 hold the empty string. |
| Alphabet.FirstIndex | main.py:34-35 | For an alphabet character, the least position holding it. |
| Alphabet.GlyphInjective | main.py:82 | Distinct katakana positions hold distinct characters. |
| Alphabet.CellsAlong | main.py:15 | Floor division of a screen side by the 23-pixel font size: n cells fit and n + 1 do not. |
| Alphabet.CellOriginOnScreen | main.py:15 | Every cell of the grid, origin and extent, lies on the screen. |
| Grid.CellCountRect | main.py:15 | A grid of ROWS rows of COLS cells has ROWS * COLS cells. |
| Grid.ColumnDue | main.py:46-48 | Column j is selected when any of its cells' speeds divides the tick, and only then. On tick 0 every column of a non-empty grid is selected. |
| Grid.RotateDown | main.py:49 | `np.roll(..., shift=1, axis=0)` on one column: the last cell moves to the top and every other cell moves down one place. |
| Grid.Above | main.py:49 | The source row of a roll is a valid row. |
| Grid.AboveIsModulo | main.py:49 | The source row of a roll is Python's floored `(i - 1) % ROWS`. |
| Grid.ShiftColumns | main.py:45-49 | One shift keeps the grid's shape. |
| Grid.ShiftColumnsAt | main.py:45-49 | Cell law: `new[i][j] = old[(i-1) mod ROWS][j]` when some speed in column j divides the tick, `old[i][j]` otherwise. |
| Grid.ShiftColumnsColumn | main.py:46-49 | Column j after a shift is the column rolled down once when it qualifies, and unchanged otherwise. A column is rolled at most once however many of its cells qualify. |
| Grid.ShiftColumnsWithin | main.py:49 | A shift keeps every cell inside the range the grid was in, so the grid stays inside the alphabet. |
| Grid.RotateDownMultiset | main.py:49 | Rolling a column keeps its multiset of characters. |
| Grid.ShiftColumnsKeepsColumnMultiset | main.py:49 | Each column keeps its multiset under a shift. |
| Grid.RotateNMultiset | main.py:49 | Any number of rolls keeps a column's multiset. |
| Grid.ShiftManyKeepsColumnMultiset | main.py:42-49 | Over any sequence of ticks each column keeps its multiset. |
| Grid.ShiftManyWithin | main.py:42-49 | Over any sequence of ticks every cell stays in the range the grid was in, so the grid stays inside the alphabet. |
| Grid.RotateNSplit | main.py:49 | k rolls move the last k cells to the front. |
| Grid.RotateNCycle | main.py:49 | ROWS rolls restore a column. |
| Grid.RotateNAdd | main.py:49 | a rolls then b rolls are a + b rolls. |
| Grid.ShiftMany | main.py:42-49 | Any number of ticks of shifting keeps the grid's shape. |
| Grid.DueTicks | main.py:46-48 | A column qualifies on at most as many ticks as there are. |
| Grid.ShiftManyColumn | main.py:42-49 | After any sequence of ticks, a column is its original rolled once per tick on which it qualified. |
| Grid.DueTicksAll | main.py:46-48 | A column that qualifies on every tick is counted on every tick. |
| Grid.ShiftCycleColumn | main.py:45-49 | A column that qualifies on each of ROWS ticks is back where it started. |
| Grid.ShiftCycleGrid | main.py:45-49 | When every column qualifies on each of ROWS ticks, the whole grid is restored. |
| GridChange.DueCount | main.py:52 | A row has at most as many due cells as cells. |
| GridChange.DueCountRows | main.py:52-53 | The number of picks drawn, `mask.shape[0]`, is at most the number of cells. |
| GridChange.DueCountPrefix | main.py:52-53 | Counting the due cells of a longer prefix of a row never gives fewer. |
| GridChange.DueCountStep | main.py:52-53 | One more cell adds one to the count exactly when that cell's interval divides the tick. |
| GridChange.DueCountRowsPrefix | main.py:52-53 | Counting the due cells of more rows never gives fewer. |
| GridChange.DueCountRowsStep | main.py:52-53 | One more row adds that row's due cells. |
| GridChange.Rank | main.py:52-54 | The row-major position of a cell among the due cells, the index of the pick `argwhere` pairs with it, never exceeds the number of picks. |
| GridChange.RankBound | main.py:52-54 | The row-major rank of a due cell is below the number of picks, so every due cell gets a pick. |
| GridChange.RankIncreasing | main.py:52-54 | Due cells later in row-major order get later picks, so no two due cells share a pick. |
| GridChange.ChangeChars | main.py:51-54 | `change_chars` keeps the grid's shape. |
| GridChange.ChangeCharsAt | main.py:51-54 | A due cell receives the pick of its row-major rank; any other cell keeps its value. |
| GridChange.ChangeCharsInAlphabet | main.py:53-54 | With picks from the alphabet, the grid stays inside the alphabet. |
| GridChange.ChangeCharsUsesEveryPick | main.py:52-54 | Every pick lands in some due cell: there are exactly as many picks as due cells. |
| GridChange.RankedCell | main.py:52 | For every rank below the number of due cells there is a due cell of that rank. |
| GridChange.RankedInRow | main.py:52 | The same within one row. |
| Luminance.DecodePixel | main.py:62 | The mapped pixel is read as a colour 0xRRGGBBAA and its first component is dropped, so the values named red, green and blue are the three low bytes, each a channel value. |
| Luminance.DecodeSplit | main.py:62 | The three low bytes of a pixel recompose its low 24 bits. |
| Luminance.DecodePixelRoundTrip | main.py:62 | Decoding a pixel packed from three channels (under any top byte) gives the channels back. |
| Luminance.Intensity | main.py:63-64 | `(r+g+b)//3` is a channel value (0..255), the floor of the mean, and at least 1 when all three channels are non-zero. |
| Luminance.Band | main.py:65 | Intensities strictly between 160 and 220 become 220; all others are kept. |
| Luminance.BandLaws | main.py:65 | The band map is idempotent, keeps channel values in 0..255 and never yields a value inside (160, 220). |
| Luminance.BandBoundaries | main.py:65 | 160 and 220 are fixed points and 190 goes to 220. |
| Luminance.VisionCacheHas | main.py:31-37 | The glyph cache holds the key `(char, (0, c, 0))` for every alphabet character and every c in 0..255, mapped to that character rendered in that colour. |
| Luminance.RenderVisionCache | main.py:31-37 | `get_rendered_chars` builds exactly the vision cache: every alphabet character in each of the 256 greens, and no other key. |
| Luminance.CellBlit | main.py:60-68 | A cell is drawn exactly when its character is non-blank and red, green and blue are all non-zero. It is drawn at `(x*23, y*23)`, in the green `Band(Intensity)`, with opacity that green + 60, between 61 and 315. |
| Luminance.CellBlitFromCache | main.py:66 | The cache lookup a drawn cell makes never misses, and it returns the glyph that is blitted. |
| Luminance.OpacityExceedsChannel | main.py:67 | A white pixel asks for opacity 315, above 255. |
| Vision.ToRows | main.py:15-16 | The grid's contents, row by row, have the array's dimensions and cells. |
| Vision.GridBlits | main.py:58-68 | The draw pass over the first m rows makes at most one blit per cell of those rows. |
| Vision.RowBlits | main.py:59-68 | A row's draw pass makes at most one blit per cell. |
| Vision.RowBlitsOnScreen | main.py:59-68 | Every blit of a row pass lies on the screen, in that row's pixel band, with opacity in 61..315. |
| Vision.GridBlitsOnScreen | main.py:58-68 | Every blit of the whole draw pass lies on the screen with opacity in 61..315. |
| Vision.FromRows | main.py:16-18 | A fresh array holding the given grid. |
| Vision.MatrixVision.constructor | main.py:13-19 | Sizes the grid to ROWS x COLS cells (floor divisions of the screen). Stores the supplied characters, intervals in [25, 50) and speeds in [1, 500). Builds the glyph cache. |
| Vision.MatrixVision.ColumnQualifies | main.py:46-48 | Column j is selected exactly when some cell's speed in it divides the tick. |
| Vision.MatrixVision.RollColumn | main.py:49 | Column j is rolled down by one row in place; the other columns are untouched. |
| Vision.MatrixVision.ShiftOne | main.py:46-49 | Column j takes its value after the shift; the other columns are untouched. |
| Vision.MatrixVision.ShiftColumn | main.py:45-49 | `shift_column` leaves the grid equal to `ShiftColumns` of the old grid, and the object invariant holds. |
| Vision.MatrixVision.ChangeCell | main.py:52-54 | Cell (i, j) takes its value after the change, consuming one pick exactly when it is due; all other cells are untouched. |
| Vision.MatrixVision.ChangeRow | main.py:52-54 | Row i takes its value after the change; the picks used are those of the row's due cells in order. |
| Vision.MatrixVision.ChangeChars | main.py:51-54 | `change_chars` leaves the grid equal to `GridChange.ChangeChars` of the old grid, and the grid stays inside the alphabet. |
| Vision.MatrixVision.DrawCell | main.py:60-68 | A cell's contribution is `CellBlit` of its character and of the pixel at its origin. The glyph comes from the cache. |
| Vision.MatrixVision.DrawRow | main.py:59-68 | A row's draw pass, given that row's contents, is `RowBlits` of it. |
| Vision.MatrixVision.Draw | main.py:56-68 | The draw pass is `GridBlits` of the grid, in row-major order. |
| Vision.MatrixVision.Run | main.py:39-43 | One tick changes characters, then shifts columns, then draws the result. |
| Rain.PoolFor | main.py:145 | The green pool is used exactly for the role string "green". |
| Rain.RoleOf | main.py:159 | Only symbol 0, the head, draws from the light-green pool. |
| Rain.NextY | main.py:146 | Above the bottom edge a symbol moves down by its speed; at or past it, it wraps to -23. |
| Rain.NextYLaw | main.py:146 | With a positive speed, a symbol above the bottom edge moves strictly down by its speed; otherwise it wraps to -23. |
| Rain.FallBounded | main.py:146 | From any start at or below HEIGHT + speed - 1 (every start a column uses), y never exceeds HEIGHT + speed - 1 and never drops below min(start, -23). |
| Rain.WrapWithinOneFrame | main.py:146 | A symbol is at or past the bottom edge for at most one frame at a time. |
| Rain.DownRange | main.py:156 | `range(start, stop, -step)` yields values in (stop, start]. |
| Rain.DownRangeSpaced | main.py:155-156 | `range(y, y - 23*h, -23)` has exactly h elements, `y - 23*k` for k < h. |
| Rain.Symbol.constructor | main.py:135-140 | A symbol at (x, y) with the column's speed, an interval in [5, 30) and a first glyph from the green pool. |
| Rain.Symbol.Draw | main.py:142-147 | The glyph is re-picked from the role's pool exactly on ticks divisible by the interval. y advances by the speed or wraps. The blit uses the new glyph and the new y. The symbol invariant, including y <= HEIGHT + speed - 1, is kept. |
| Rain.SymbolColumn.constructor | main.py:152-156 | `column_height` distinct fresh symbols at `y, y-23, y-46, ...`, all with the column's x and speed. |
| Rain.SymbolColumn.Draw | main.py:158-159 | Symbol k, drawn in order, re-picks from the light-green pool if it is the head and the green pool otherwise, exactly when its own tick is divisible by its interval. Its y moves by `NextY`. Blit k is its new glyph at its new position, and the column invariant is kept. |
| Fade.StartAlpha | main.py:90 | The opacity starts at the argument when it is non-zero, and at 50 when it is absent or 0. |
| Fade.FadeStep | main.py:124-125 | The opacity changes exactly on ticks divisible by 20 while below 150, and then by exactly +3. |
| Fade.Toggle | main.py:112-117 | The mode flips exactly when space is held. |
| Fade.Step | main.py:111-126 | One iteration flips the mode exactly when space is held. In camera mode the opacity stays; in rain mode it takes one fade step. |
| Fade.Run | main.py:111-126 | Over n iterations the opacity rises by at most 3n. |
| Fade.RunMonotone | main.py:122-126 | The opacity never decreases. |
| Fade.RunBounded | main.py:124-125 | From any opacity up to 152, the opacity never exceeds 152. |
| Fade.RunResidue | main.py:125 | The opacity only moves in steps of 3. |
| Fade.RunFromDefault | main.py:90 | Started as the program starts it, the opacity stays within 50..152 and congruent to 50 modulo 3. |
| Fade.RunMode | main.py:112-117 | After any run, the mode has flipped exactly when space was held an odd number of times. |
| Fade.StepInCameraMode | main.py:122-126 | In camera mode the opacity is frozen. |
| Fade.Matrix.constructor | main.py:90-93 | The opacity starts at `alpha if alpha else 50` and the mode is rain. |
| Fade.Matrix.Frame | main.py:111-126 | One loop iteration moves the state by `Step`: toggle first, then a fade step in rain mode only. |
| Fade.Matrix.HelloNeo | main.py:111-130 | Running the loop over a trace of inputs leaves the state `Run` of the old state over that trace. |

## Left out

- Rendering. pygame display, surfaces, `fill`, `blit` and `display.flip` are not modelled (main.py:79-80, 96-103, 129). Neither is `set_alpha` compositing, which here also mutates the shared cached glyph (main.py:67, 126). Blits are returned as values, in the order they are made.
- Fonts. Glyph images are opaque values identified by what they were rendered from. In rain mode a glyph is its pool and alphabet position. The random green shade of each green-pool glyph (main.py:84-85) and the colour `#e3ffe4` (main.py:86) are not modelled.
- Camera. Start, stop and capture, image scaling and `PixelArray` are not modelled (main.py:22-29, 108-109, 114, 117). The scaled frame is an input: a grid of 32-bit mapped pixels.
- I/O and timing. Sound, monitor detection, the event loop and `exit()`, `clock.tick(60)` and `time.sleep(0.1)` are not modelled (main.py:74, 91, 107, 118, 128, 130).
- Randomness. numpy and `random` draws are supplied values that meet the generator's range (main.py:16-18, 53, 84, 88, 138-139, 145, 153-154).
- Unused draws. `Rain.SymbolColumn.Draw` takes one pick per symbol. The source only draws a new glyph when the interval divides the tick, so picks for symbols that are not due are ignored.
- The infinite loop of `hello_neo` is a finite input trace. Each iteration reads one space-key state and one tick.
- `Matrix.draw` (main.py:96-103) and the calls from `hello_neo` into `SymbolColumn.draw` (main.py:123) are not modelled as one composition. Each component is modelled separately. The fade and mode state is kept apart from the symbol columns and the vision grid.
- Column placement. `Matrix.__init__` places one column at each x in `range(0, WIDTH, 23)` with a start y in [-HEIGHT, 0) (main.py:88-89). That placement is not modelled. A column is built from a supplied x and a start y below 0.
- Blank test. In the source, `if char:` tests the numpy string cell. The model tests the alphabet position, whose blank entries are exactly the empty strings.
- settings.py only holds constants and main.py does not use it. settings.py is not part of this model.
