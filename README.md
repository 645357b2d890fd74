# ascii_art: a verified model of the terminal animation player

`ascii_art` plays an animation in a terminal. It has two threads:

- The **encoder thread** (producer) loads frame images `target/images/1.jpeg` … `4989.jpeg` in a cycle. It turns every pixel into a coloured glyph in the *back* slot of a double buffer.
- The **render thread** (consumer) serialises the *front* slot into ANSI escape sequences. It writes them out, paces itself to about 16 frames per second, swaps the two slots and asks for the next frame.

The threads hand work to each other through two channels that carry unit tokens: "request" and "ready".

This project models the sequential core of that program and proves what it does:

- `decimal.dfy` (`Decimal`): Rust's `{}` rendering of an unsigned integer, and a parser that reads it back.
- `frames.dfy` (`Frames`): the frame cell, the `FrameData` grid (a class over an array of cells), the `DoubleBuffer` (a class whose `front` and `back` fields the swap reassigns), and row-major index arithmetic.
- `encoder.dfy` (`Encoder`): the glyph rule, and the in-place row loop that overwrites the back frame. It is proved against a per-cell specification, and rows are shown to be independent.
- `render.dfy` (`Render`): the serialiser.
  - Each cell becomes a CUP escape `ESC [ y ; x H` (ECMA-48 section 8.3.21). Then comes a 24-bit foreground SGR escape `ESC [ 38;2;r;g;b m` (ECMA-48 section 8.3.117, colour form of ITU-T T.416 section 13.1.8). Then comes the glyph.
  - The two nested loops append these to a write buffer. The buffer is handed to the terminal and cleared.
  - A parser reads the serialised frame back. This proves that the text determines every cell and its coordinates.
- `pacer.dfy` (`Pacer`): the sleep after each frame and its effect over many frames.
- `paths.dfy` (`Paths`): the list of frame image paths.
- `handoff.dfy` (`Handoff`): the request/ready ordering as a token state machine run one step at a time. It proves the following:
  - The producer writes only while the consumer has not yet received ready.
  - The consumer reads and swaps only while the producer has not yet received the next request. Meanwhile the producer may be decoding the next image, which touches neither slot, or be blocked in the receive.
  - Exactly one of the modelled token and slot steps can run at any time.
  - The display runs one frame behind the encoder. The first frame shown is the blank initial one.

Behaviour as written, where it differs from what one might expect:

- **CUP coordinates are 0-based.** CUP parameters are 1-based in ECMA-48, but the program prints the row and column indices as they are. The first cell is `ESC[0;0H`. ECMA-48 reads a parameter of 0 as 1, so rows 0 and 1 address the same screen line, and columns 0 and 1 the same screen column. The model reproduces the program's text exactly and says nothing about the screen.
- **Pacing has no catch-up.** The program sleeps `target - elapsed` when a frame took less than the target and otherwise goes on at once. It keeps no running deficit, so time lost to a slow frame is never recovered (`Pacer.PacedIsTargetPlusOverruns`). The target is `Duration::from_millis(1000 / 16)`, which is 62 ms because of integer division. The timed window runs from after the first `MoveTo` to after the write. The swap and the next request fall outside it.
- **The swap has a transient alias.** The program's swap loads `back`, atomically swaps it into `front`, then stores the old front into `back`. Between the last two steps both roles point at the same frame. This is harmless because the swap runs only while the encoder thread has not yet received the next request (`Handoff.ExclusiveAccess`). At that point the encoder thread is decoding the next image or is blocked in `recv`, and it touches neither slot. The model's `Swap` runs as one step and keeps the roles distinct.
- **The display lags by one frame.** The render thread reads the front slot *before* it swaps. The first display therefore shows the blank frame the buffer started with. Display k + 1 shows the frame written by the encoder's k-th pass, while pass k + 1 has already been written into the back slot.

## Model

| member | source | states |
|---|---|---|
| Decimal.Show | src/main.rs:149-153 | the text printed for a number by `{}` is canonical decimal: non-empty, digits only, no leading zero; one character exactly when the number is below 10 |
| Decimal.ValueOfShow | src/main.rs:149-153 | the printed digits denote the printed number |
| Decimal.ShowInjective | src/main.rs:79 | two numbers print the same exactly when they are equal |
| Decimal.ShowOfValue | src/main.rs:149-153 | every canonical digit string is what `{}` prints for its value |
| Decimal.SplitShown | src/main.rs:149-153 | a printed number followed by a non-digit is split off whole, so adjacent fields cannot run together |
| Frames.RowMajor | src/main.rs:148 | index `y * width + x` of a row-major grid gives back row `y` and column `x` by division and remainder |
| Frames.RowOf | src/main.rs:120-123 | every index of a `width * height` grid lies in a row below `height`, at column `i % width` |
| Frames.RowStartIsProduct | src/main.rs:146-148 | the start of row `y`, counted row by row, is `y * width` |
| Frames.FrameData.Blank | src/main.rs:32-36 | a new frame records its width and height and has `width * height` cells, all black blanks; the product must fit in a `u32` |
| Frames.DoubleBuffer.constructor | src/main.rs:31-46 | two fresh, distinct frames with the given dimensions, every cell `(0, 0, 0, ' ')` |
| Frames.DoubleBuffer.Swap | src/main.rs:48-55 | the new front is the old back and the new back the old front; the roles stay distinct and no cell of either frame changes |
| Frames.DoubleBuffer.Front | src/main.rs:57-59 | the frame read by the render thread is a valid frame distinct from the back frame |
| Frames.DoubleBuffer.BackMut | src/main.rs:60-62 | the frame written by the encoder thread is a valid frame distinct from the front frame |
| Frames.SwapTwice | src/main.rs:48-55 | two swaps restore both roles and leave every cell as it was |
| Frames.NewPlayerBuffer | src/main.rs:96-108 | the player's buffer holds two blank 192 x 108 frames |
| Encoder.EncodePixel | src/main.rs:125-128 | red, green and blue pass through unchanged; the glyph is a blank exactly when alpha is 0 and the filled square exactly when alpha is not 0 |
| Encoder.EncodeInto | src/main.rs:117-130 | after the row loop the back frame equals `Encoded` of its old cells: covered columns hold the encoded pixel, all other cells are unchanged and the cell count is the same |
| Encoder.EncodeRowInto | src/main.rs:123-130 | the per-row closure finishes row `y` and leaves every later row untouched |
| Encoder.RowBeyondImage | src/main.rs:124 | columns of a row at or beyond the image width keep their old cells |
| Encoder.EncodedCovered | src/main.rs:124-128 | for every `y < height` and `x < cols`, cell `y * width + x` becomes the encoded pixel `(x, y)` |
| Encoder.EncodedBeyondImage | src/main.rs:124 | for every `y < height` and `cols <= x < width`, cell `y * width + x` is unchanged |
| Encoder.EncodeRowsAt | src/main.rs:120-123 | after encoding rows in any listed order, a cell holds its encoded pixel exactly when its row was listed |
| Encoder.RowOrderIrrelevant | src/main.rs:120-123 | encoding the rows in any order, with repeats, gives the same frame as the sequential row loop, so the parallel row chunks do not interfere |
| Render.CellText | src/main.rs:149-153 | a cell's text is the CUP sequence for `y;x`, then the SGR `38;2;r;g;b` sequence, then the glyph |
| Render.AppendRow | src/main.rs:147-155 | the inner loop appends the texts of row `y`'s cells, column by column |
| Render.AppendFrame | src/main.rs:145-157 | the nested loops append the whole frame's text, row by row |
| Render.Renderer.constructor | src/main.rs:137-138 | the write buffer starts empty; its capacity hint is left out |
| Render.Renderer.Present | src/main.rs:144-161 | the text handed to the terminal is the serialised front frame, and the write buffer is empty again afterwards |
| Render.RowsThenRest | src/main.rs:146-147 | the first `y` complete rows followed by the cells from row `y` on give the whole cell-by-cell text |
| Render.FrameTextIsCellByCell | src/main.rs:146-148 | the nested loops emit the cells in storage order, the column advancing first and wrapping at the width |
| Render.FieldsRoundTrip | src/main.rs:149-153 | numbers formatted between non-digit literal pieces are read back exactly |
| Render.CellRoundTrip | src/main.rs:149-153 | one cell's text is read back as that cell at its coordinates, whatever follows it |
| Render.FlatRoundTrip | src/main.rs:145-157 | a run of cell texts is read back as the same cells at the same coordinates |
| Render.PlacedFromIsRowMajor | src/main.rs:146-148 | the coordinates met by walking the grid are `i / width` and `i % width` for cell `i` |
| Render.FrameRoundTrip | src/main.rs:145-157 | a frame's serialised text determines the frame: it is read back as every cell in row-major order at its 0-based row and column |
| Pacer.SleepTime | src/main.rs:162-167 | below the target the sleep tops the frame up to exactly the target; at or above it there is no sleep |
| Pacer.FramePeriod | src/main.rs:162-167 | a frame's timed window and sleep add up to at least the target, exactly the target plus its overrun; the sleep never exceeds the target, and there is a sleep exactly when the frame finished early |
| Pacer.TargetIs62Millis | src/main.rs:164 | the target is 62 ms, so 16 frames take 992 ms, less than a second |
| Pacer.PacedIsTargetPlusOverruns | src/main.rs:140-167 | the timed windows and sleeps of F frames add up to F targets plus the sum of every overrun: there is no catch-up |
| Pacer.PacedBounds | src/main.rs:140-167 | the timed windows and sleeps of F frames add up to at least F targets and at least the total timed work |
| Pacer.RunFrames | src/main.rs:140-167 | over a run of frames each sleep follows the rule, and the timed windows and sleeps add up to F targets plus the overruns |
| Paths.PathOf | src/main.rs:79 | a path is `target/images/`, then the frame number in decimal, then `.jpeg`, so the number can be read back from between the two |
| Paths.PathInjective | src/main.rs:79 | different frame numbers give different paths |
| Paths.GetPath | src/main.rs:76-83 | exactly 4989 paths; element `k` is `target/images/` followed by `k + 1` and `.jpeg` |
| Paths.PathsDistinct | src/main.rs:76-83 | the listed paths are pairwise distinct |
| Handoff.Apply | src/main.rs:116-171 | a step other than the swap leaves the front slot's frame as it was; the swap exchanges the roles and touches no slot |
| Handoff.Init | src/main.rs:108-110 | both threads at the top of their code, both slots the blank frame 0, no token sent, nothing written or shown; the only step that can run is the render thread's first request |
| Handoff.InitInv | src/main.rs:108-136 | the start, both slots blank and no token sent, is a reachable state |
| Handoff.StepPreservesInv | src/main.rs:116-171 | every step keeps the machine among the seven reachable points of the round |
| Handoff.OneToken | src/main.rs:131-171 | at most one token is in flight at any time |
| Handoff.AtMostOneEnabled | src/main.rs:116-143 | in a reachable state no two different token or slot steps can run: these steps of the two threads strictly alternate |
| Handoff.SomeStepEnabled | src/main.rs:116-143 | in a reachable state some step can run: the threads never deadlock; with the row above, exactly one can |
| Handoff.ExclusiveAccess | src/main.rs:116-171 | the producer writes only while the consumer has not yet received ready; the consumer reads the front and swaps only while the producer has not yet received the next request |
| Handoff.WriteSparesFront | src/main.rs:118-130 | the producer's write leaves the front slot, which holds the next frame to display, and overwrites the frame displayed last |
| Handoff.DisplayLag | src/main.rs:143-145 | the number of frames displayed is the number written, or one fewer |
| Handoff.RunPreservesInv | src/main.rs:112-172 | every state reached from a reachable state by a run of steps is reachable |
| Handoff.RoundDisplaysNext | src/main.rs:116-171 | one round displays the next frame number and returns both threads to the start of the round |
| Handoff.RoundsRun | src/main.rs:112-172 | the first request and `n` rounds always run and display `n` frames |
| Handoff.Playback | src/main.rs:112-172 | after `n` rounds, displays 0 … n-1 have shown frames 0 … n-1 in order: the blank frame first, and each later display the frame written one pass earlier; `n` frames have been written |
| Handoff.ImageSchedule | src/main.rs:112-115 | the producer's k-th pass reads image number `k mod 4989 + 1`: the outer loop restarts the path list; frame k + 1 is written from `SourceOf(k + 1)`, the path of that image |
| Handoff.SourceOf | src/main.rs:112-115 | every frame number comes from one of the 4989 listed paths |
| Handoff.SourceInList | src/main.rs:112-115 | frame k > 0 is written from element `(k - 1) mod 4989` of the list `get_path` returns |

## Left out

- Threads, `mpsc` channels, `join` and the memory orderings of `AtomicPtr`. The hand-off is modelled as an interleaving of sequential steps in `Handoff`, not as concurrent execution.
- The raw-pointer dereferences in `front` and `back_mut`, and the `Drop` implementation that frees both boxes. Memory is managed by the language in the model, and slots are objects.
- Rayon's parallel `par_chunks_mut`. Rows are encoded by a sequential loop. `Encoder.RowOrderIrrelevant` shows that any row order gives the same frame.
- Image decoding (`image::open`, `get_pixel`) and the unused `preload_images`. These are a foreign library and file I/O. An image is a width, a height and rows of RGBA pixels, and a path is not linked to any pixels.
- Terminal I/O: raw mode, clearing, hiding the cursor, `MoveTo`, `stdout.write_all`, `terminal::size` and the final size print. What would be written is returned as a string.
- Errors from writing to stdout, which the program discards. No write is modelled.
- The UTF-8 encoding of the written text. The model works on characters, and the filled square is one character.
- `Instant::now`, `elapsed` and `thread::sleep`. Elapsed times are natural-number inputs in nanoseconds, and sleeps are returned values. The untimed steps of a frame (the first `MoveTo` at src/main.rs:141, the swap at 169, the send at 171) and any sleep overshoot are not in `Pacer.Paced`, so it is not the wall-clock length of a run.
- The capacity hint `width * height * 20` of the write buffer (src/main.rs:138). It is a `u32` product: a debug build panics, and a release build wraps, when `width * height` exceeds `U32_MAX / 20`. The model leaves out this panic: `Render.Renderer.Present` only requires a valid buffer, whose `width * height` fits in a `u32`. For the 192 x 108 player the product is far below the limit.
- Frames.FrameData.Blank and Frames.DoubleBuffer.constructor: they require `width * height` to fit in a `u32` (src/main.rs:35 and 40). It does not model the wrap-around a release build would perform on overflow, because the program's only call uses 192 x 108.
- Encoder.EncodeInto: it requires a non-zero frame width, no more image columns than frame columns, and, when the image has columns, at least as many image rows as frame rows. Otherwise the program panics: a zero width gives a zero chunk size, and for a frame with at least one row, `row[x]` is out of range or `get_pixel` is out of bounds. These panics are not modelled.
- Decoding the next image (`image::open`, src/main.rs:115) runs before the producer's receive. It overlaps the render thread's display, pacing and swap, and it is not a step of the token machine. It touches neither slot.
- The endless loops of both threads. The token machine runs finitely many steps, and shutdown is not modelled.
