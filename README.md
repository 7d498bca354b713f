# A verified model of the sim1942 simulation core

sim1942 is a spatial evolution simulator. A rectangular grid of cells evolves generation by generation. In each generation, every non-null cell is taken over by itself or by a fertile orthogonal neighbour. The winner is the candidate with the smallest exponential draw, weighted by fitness. Afterwards a sparse set of cells mutates: their colour (allele) changes and their fitness is scaled by a table entry.

The user can draw obstacles, called null cells, into the grid. The drawing goes through an edit queue, which the worker drains after each generation, just after it swaps its two buffers. A 64-bit xorshift + Weyl generator supplies the randomness. A barrier map file can be given at start-up.

This project models these pieces in Dafny and proves their properties:

- **Edit queue and buffer bookkeeping** (`worker.cc`), in modules `Cells`, `Lines`, `Drain` and `Workers`.
  - `toggle_cell` and `toggle_line` record requests in a coordinate → bool map.
  - `apply_toggles` drains the queue into the live buffer and the set of null cells. It covers the "clear all" mode and the fallback that erases a neighbour, tried in the eight `erase_area_` offsets.
  - `swap_buffers` counts the generation and swaps the buffers.
  - `class Workers.Worker` holds the state as fields: the two buffers are arrays, the queue is a map, the null cells are a set. Its methods are proved against the pure specifications in `Lines` and `Drain`.
- **The integer skeleton of one generation** (`worker.cc`, `do_work`), in modules `Competition` and `Mutation`.
  - The neighbour scan and its bounds guards.
  - The colour counts and the pool of empty colours.
  - The mutation loop, with its colour arithmetic and its 7-bit table index.
  - The exponential draws and the floored mutation gaps are inputs, not computed.
- **The PRNG** (`xorshift64.h`), in modules `Bits` and `Xorshift`.
  - Seeding and `get_raw`.
  - The 32-bit split.
  - The three bounded samplers.
  - `create_random_seed`, as a function of the pid and the time.
- **Start-up** (`main.cc`), in modules `MapFile` and `Startup`.
  - The barrier map grammar `+(int_ >> ',' >> int_)` under the ASCII space skipper. It succeeds all or nothing.
  - The exit statuses of `main`.

Three points of the source's behaviour are easy to misread:

- The map grammar also lets whitespace surround the comma.
- A pair may follow the previous one without whitespace when it starts with a sign, as in `1,2-3,4`.
- A named map file that yields no pairs stops `main` with status 2.

## Model

| member | source | states |
|---|---|---|
| Cells.IndexInRange | worker.cc:242-252 | an in-bounds coordinate's position x + y*width lies in [0, width*height) |
| Cells.IndexInjective | worker.cc:246-252 | distinct in-bounds coordinates have distinct buffer positions |
| Cells.Sgn | worker.cc:187-189 | sgn is -1, 0 or 1; it is 0 exactly for 0; sgn(v)*v = \|v\| and sgn(v)*\|v\| = v |
| Cells.TruncDiv | worker.cc:204 | C++ `/` on `int`, used for d*dy/dx here and for d*dx/dy at line 212: the quotient of the magnitudes, negated when the operands' signs differ, i.e. truncated toward zero |
| Cells.TruncDivSpec | worker.cc:204 | C++ `/` truncates toward zero: q*b and a share a sign, \|q*b\| <= \|a\|, and \|a - q*b\| < \|b\| |
| Cells.TruncDivBetween | worker.cc:204 | for 0 < d/b <= 1 the truncated quotient d*m/b lies between 0 and m |
| Cells.RowStartBound | worker.cc:55-57 | the row starts 0, w, 2w, ... stay inside the buffer of w*h cells, and the last row ends exactly at w*h |
| Lines.Record | worker.cc:176-184 | toggle_cell sets key (x,y) to `on` exactly when 0<=x<w and 0<=y<h; every other key keeps its value; out of bounds nothing changes |
| Lines.RecordLastWins | worker.cc:180-184 | of two requests for the same key the later one wins |
| Lines.RecordAllOverride | worker.cc:200-218 | recording a batch overrides exactly its in-bounds points with `on` and leaves all other keys unchanged |
| Lines.RecordAllSnoc | worker.cc:202-215 | recording one more point of a batch records it on top of the points before it |
| Lines.MajorDelta | worker.cc:195-200 | the major delta is 0 only when dx = dy = 0 and bounds both \|dx\| and \|dy\| |
| Lines.LineKeys | worker.cc:193-219 | the keys toggle_line writes: nothing for a zero-length line, otherwise the in-bounds points among the intermediate points and (x2,y2) |
| Lines.LineKeysEmpty | worker.cc:197-199 | a zero-length line writes nothing, not even its end point |
| Lines.StepBetween | worker.cc:202-215 | step k moves the major coordinate by sgn*k and keeps the minor one between the endpoints |
| Lines.LinePoints | worker.cc:200-216 | the points the loop of toggle_line visits before the end point, in loop order: for d = sgn(m), 2sgn(m), ..., (\|m\|-1)sgn(m), m the major delta, the point whose major coordinate is start + d and whose minor coordinate is start + the truncated quotient d*minor/major |
| Lines.LinePointsShape | worker.cc:200-216 | the k-th intermediate point has major coordinate start + o*(k+1), so every major coordinate strictly between the endpoints is taken once; its minor coordinate lies between the endpoints' minor coordinates |
| Lines.LinePointsDistinct | worker.cc:200-216 | intermediate points are pairwise distinct and differ from both endpoints |
| Lines.LinePointAt | worker.cc:202-214 | the k-th intermediate point is the one the loop computes with d = (k+1)*sgn of the major delta |
| Lines.LineKeysExcludeStart | worker.cc:191-219 | toggle_line never records (x1,y1) |
| Lines.LineKeysEnd | worker.cc:217-218 | a non-zero line records (x2,y2) iff it is in bounds |
| Lines.LineKeysCount | worker.cc:200-218 | toggle_line writes at most max(\|dx\|,\|dy\|) keys |
| Drain.FirstNull | worker.cc:250-255 | the first erase_area_ offset whose neighbour is recorded null; none of the earlier ones is |
| Drain.StepEffect | worker.cc:244-256 | `on` inserts its key; `off` removes its own key when present, else the first recorded erase_area_ neighbour, else nothing |
| Drain.DrainStep | worker.cc:242-256 | one request applied to the buffer and null set by the effect StepEffect chooses; the grid stays well formed |
| Drain.Drain | worker.cc:241-257 | the requests of the queue applied one after another in the given order; the grid stays well formed |
| Drain.StepChangesOneCell | worker.cc:244-256 | one request changes at most one cell, at an in-bounds position: toggled on for its own key, toggled off for the removed coordinate |
| Drain.StepNulls | worker.cc:244-256 | `on` adds exactly its key; `off` removes at most one coordinate and adds none; its own key is removed when present |
| Drain.DrainNullsFrom | worker.cc:241-257 | after a drain the null set holds only old null cells or keys requested `on` |
| Drain.Cleared | worker.cc:230-236 | the buffer with every cell whose coordinate is recorded null toggled off and every other cell kept; its length is the buffer's |
| Drain.ClearedTogglesOff | worker.cc:230-236 | the clear-all branch toggles every recorded null cell off |
| Drain.ClearedKeeps | worker.cc:230-240 | the clear-all branch leaves every other cell unchanged |
| Drain.ClearedAdd | worker.cc:232-236 | clearing one more recorded coordinate toggles exactly its cell off |
| Drain.DrainColors | worker.cc:241-257 | draining never gives a cell a colour outside the allele range |
| Workers.Worker.constructor | worker.cc:10-18 | two distinct fresh buffers of width*height default cells, empty queue, generation 0; when the default colour is below num_alleles, every colour is |
| Workers.Worker.IsCellValid | worker.cc:176-178 | true exactly for on-grid coordinates, whose position then indexes the buffers |
| Workers.Worker.ToggleCell | worker.cc:180-184 | the queue becomes Record(old queue, (x,y), on); nothing else changes |
| Workers.Worker.StepAlongX | worker.cc:200-207 | the x-major loop records the on-grid intermediate points in order |
| Workers.Worker.StepAlongY | worker.cc:208-216 | the y-major loop records the on-grid intermediate points in order |
| Workers.Worker.ToggleLine | worker.cc:193-219 | the queue becomes old queue + (LineKeys ↦ on); nothing else changes |
| Workers.Worker.DoClearNulls | worker.cc:171-174 | sets the clear-all flag and changes nothing else |
| Workers.Worker.EraseArea | worker.cc:249-256 | removes and toggles off the first recorded erase_area_ neighbour, if any |
| Workers.Worker.ClearNulls | worker.cc:230-240 | every recorded null cell is toggled off, no other cell changes; null set and queue end empty and the flag ends false |
| Workers.Worker.DrainKey | worker.cc:242-256 | one pass of the drain loop: the buffer and null set become DrainStep of their old values for the request |
| Workers.Worker.DrainQueue | worker.cc:241-258 | the drain branch: the buffer and null set become the Drain of the queue in the given order; the queue ends empty |
| Workers.Worker.ApplyToggles | worker.cc:226-259 | clear-all as ClearNulls; otherwise the buffer and null set become the Drain of the queue in the given order; the queue always ends empty |
| Workers.Worker.SwapBuffers | worker.cc:154-158 | gen increases by 1 modulo 2^64; the buffers are exchanged; the queue is drained into the new live buffer; the old live buffer is untouched |
| Workers.Worker.Generation | worker.cc:51-123 | pop_b becomes NextGeneration(pop_a) (scan, then mutation); pop_a is unchanged; colours stay below num_alleles |
| Workers.Worker.DoWorkStep | worker.cc:51-138 | one loop pass: the next generation becomes live and gen increases by 1; with clear-all pending every recorded null cell of it is toggled off and the null set ends empty, otherwise the queue is drained into it; the queue ends empty and the flag false; the draw counter advances by the draws of the whole scan; colours stay in range |
| Workers.NextGeneration | worker.cc:53-123 | one generation: the scan NextCells of the live buffer, then the mutation pass Mutations over it, starting from the pool of allele colours the scan left empty; its length is the buffer's |
| Workers.Counts | worker.cc:84 | the colour table counts, per colour, the non-null cells of b with that colour |
| Workers.NextCellsKeeps | worker.cc:53-85 | the scan copies every null cell and keeps colours in range |
| Workers.NextGenerationKeeps | worker.cc:53-123 | a generation keeps colours below num_alleles and leaves infertile null cells exactly as they were |
| Competition.Candidates | worker.cc:63-83 | the competitors are the cell and the fertile neighbours behind the guards x>0, y>0, x<w-1, y<h-1; every one is in bounds, fertile, and the cell itself or orthogonal to it |
| Competition.Contest | worker.cc:58-83 | the race at one position: starting from the cell itself with infinite weight, each candidate in turn draws once and takes the lead only with a strictly smaller draw |
| Competition.RaceOverWinner | worker.cc:62-83 | the winner is the candidate with the first minimal draw; with no candidate the cell is kept with infinite weight |
| Competition.ContestOutcome | worker.cc:58-83 | a contest uses one draw per candidate; the winner is the cell itself or a fertile in-bounds orthogonal neighbour, with the first minimal draw |
| Competition.NextCell | worker.cc:57-84 | the scanned cell at one position: a null cell is copied, any other is the winner of its contest |
| Competition.NextCells | worker.cc:51-86 | the whole scanned buffer: position by position, NextCell with the draw counter after the draws of all earlier positions; its length is the buffer's |
| Competition.NextCellsAt | worker.cc:55-85 | position i of the scanned buffer is the contest at i, using the draws that follow those of the earlier positions |
| Competition.NextCellsFrom | worker.cc:57-83 | a null cell keeps its copied value; otherwise b[pos] is a[pos] or a fertile in-bounds orthogonal neighbour |
| Competition.VisitStep | worker.cc:57-84 | at an in-bounds position, a null cell keeps its value and uses no draw; otherwise the contest starting at the draws used so far gives the scanned cell, the next draw number and a colour in range |
| Competition.TallyZero | worker.cc:84-93 | a colour's count is 0 iff no non-null cell of b carries it |
| Competition.ColorBound | worker.cc:84 | a scanned cell's colour is below the bound of the source buffer's colours, so color_count is indexed in range |
| Competition.Visit | worker.cc:57-84 | visiting one position writes b[pos] := the contest outcome and adds one to its colour's count |
| Competition.ScanRow | worker.cc:56-85 | a row of visits extends the scanned prefix and the counts by one row |
| Competition.ScanRows | worker.cc:55-86 | the rows in turn extend the scanned prefix and the counts over the whole buffer, and the draw counter ends after all the draws of the scan |
| Competition.ScanDone | worker.cc:51-86 | a scan that covers every position holds the new buffer, and its counts equal the tallies of the new colours |
| Competition.Scan | worker.cc:51-86 | b becomes NextCells(a); the counts equal the tallies of b's colours over the non-null cells; the draw counter advances by the draws used |
| Mutation.MutationIndex | worker.cc:104-106 | r >> 57 is below 128, the size of the mutation table |
| Mutation.EmptyColorsBelowSpec | worker.cc:91-95 | the pool lists exactly the zero-count colours below num_alleles, in ascending order |
| Mutation.CollectEmptyColors | worker.cc:89-96 | the loop builds that pool: ascending, and c is in it iff c < num_alleles and its count is 0 |
| Mutation.RemoveAtSpec | worker.cc:118-119 | erasing one entry keeps the pool ascending and removes exactly that colour |
| Mutation.MutantColor | worker.cc:107-120 | from an empty pool the colour is below num_alleles; otherwise it is a member of the pool |
| Mutation.MutantColorKeepsParent | worker.cc:111-113 | (c + r%(n-1)) % n equals the parent colour c exactly when r%(n-1) = 0 |
| Mutation.MutantColorSameExample | worker.cc:112-113 | illustration of MutantColorKeepsParent: a concrete draw (parent 3, bits 8, 5 alleles) that keeps the parent colour |
| Mutation.Mutant | worker.cc:106-122 | a mutant keeps its null and fertile flags and takes the chosen colour |
| Mutation.Mutations | worker.cc:97-123 | the mutation pass: from each target on, an infertile target is skipped; a fertile one takes one raw draw, its fitness is multiplied by the table entry of the top 7 bits and its colour is chosen by MutantColor; a pool colour is erased only when another target follows on the grid; the next target is the current one plus the next gap; its length is the buffer's |
| Mutation.MutationsFrame | worker.cc:97-123 | the mutation pass changes only the colour and fitness of fertile cells at visited positions |
| Mutation.MutationsColors | worker.cc:97-123 | every colour stays below num_alleles |
| Mutation.MutationLoop | worker.cc:97-123 | the in-place loop over b computes Mutations(old b) |
| Xorshift.XorshiftStep | xorshift64.h:83 | the update of u: u ^= u << 5, then u ^= u >> 15, then u ^= u << 27 |
| Xorshift.Next | xorshift64.h:82-85 | the state after one get_raw: u xorshifted, w plus 0x61C8864680B583EB mod 2^64 |
| Xorshift.Raw | xorshift64.h:82-86 | the value get_raw returns: the new u plus (new w ^ (new w >> 27)), mod 2^64 |
| Xorshift.Advance | xorshift64.h:69-70 | the state after n calls of get_raw |
| Xorshift.Seeded | xorshift64.h:65-71 | the state after seed: the seeds with 0 replaced by the defaults, advanced by 256 draws |
| Xorshift.XorshiftStepInverse | xorshift64.h:83 | the three xorshift steps (shifts 5, 15, 27) are undone by their inverse |
| Xorshift.XorshiftStepInjective | xorshift64.h:83 | the xorshift step is injective |
| Xorshift.XorshiftStepNonZero | xorshift64.h:83 | a non-zero word stays non-zero |
| Xorshift.InitialNonZero | xorshift64.h:65-67 | a zero seed1 is replaced, so u starts non-zero; non-zero seeds are kept |
| Xorshift.AdvanceKeepsNonZero | xorshift64.h:69-70 | any number of draws keeps u non-zero |
| Xorshift.SeededNonZero | xorshift64.h:65-71 | after seeding, u is non-zero |
| Xorshift.JoinHighLow | xorshift64.h:96-102 | high*2^32 + low of a draw gives the draw back |
| Xorshift.HighLowJoin | xorshift64.h:96-102 | splitting a joined pair gives the halves back |
| Xorshift.MaskedDrawSmall | xorshift64.h:113-126 | a draw below n survives the mask unchanged |
| Xorshift.ShiftedAsWrittenMissesTop | xorshift64.h:132-144 | with the shift as written, a shifted draw never equals n-1 for n >= 3 |
| Xorshift.ShiftedCorrectedReaches | xorshift64.h:132-144 | with the corrected shift, every v < n is the outcome of some draw, which is accepted |
| Xorshift.Xorshift64.GetState | xorshift64.h:77-79 | the pair (u, w) |
| Xorshift.Xorshift64.constructor | xorshift64.h:57-59 | the state is Seeded(seed1, seed2) and u is non-zero |
| Xorshift.Xorshift64.Seed | xorshift64.h:65-71 | zero seeds are replaced by 15191868757011070976 and 0x61C8864680B583EB, then exactly 256 draws are made; u ends non-zero |
| Xorshift.Xorshift64.GetRaw | xorshift64.h:82-86 | one step: u is xorshifted, w advances by 0x61C8864680B583EB mod 2^64, and u + (w ^ (w >> 27)) is returned; u != 0 is preserved |
| Xorshift.Xorshift64.GetUint64 | xorshift64.h:88-90 | one raw draw |
| Xorshift.Xorshift64.GetUint32 | xorshift64.h:92-94 | the high 32 bits of one raw draw |
| Xorshift.Xorshift64.GetUint32Pair | xorshift64.h:96-102 | (high, low) of one raw draw, which they rejoin to |
| Xorshift.Xorshift64.GetUint64Mod | xorshift64.h:107-109 | one draw modulo n, below n for n > 0 |
| Xorshift.Xorshift64.DrawMasked | xorshift64.h:123-126 | one pass of the do/while body: one state step, the draw masked with v, accepted iff the masked value is below n |
| Xorshift.Xorshift64.SampleMasked | xorshift64.h:123-127 | the rejection loop: an accepted value is below n; every earlier draw was rejected; one state step per draw |
| Xorshift.Xorshift64.GetUint64x | xorshift64.h:113-128 | masks draws with Mask(n) until one is below n; any returned value is < n |
| Bits.MaskOnes | xorshift64.h:115-122 | the smeared mask has the form 2^k - 1 |
| Bits.MaskCovers | xorshift64.h:115-122 | the mask is at least n - 1 |
| Bits.MaskLeast | xorshift64.h:115-122 | the mask is the smallest 2^k - 1 at least n - 1 |
| Bits.MaskKeepsSmaller | xorshift64.h:115-126 | masking keeps every value below n |
| Bits.ShiftAsWrittenValue | xorshift64.h:134-138 | the counted shift is 65 - bitlength(n-1) for n-1 >= 1 and 64 for n <= 2; it is one more than the intended shift |
| Bits.ShiftAsWrittenMissesTop | xorshift64.h:132-144 | for n >= 3 every draw shifted as written is below n - 1 |
| Bits.ShiftAsWrittenSmall | xorshift64.h:134-141 | for n <= 2 the shift is 64, so the shifted draw is 0 |
| Bits.ShiftCorrectedRange | xorshift64.h:132-142 | with the intended shift, the shifted draw is below 2^bitlength(n-1) |
| Bits.ShiftCorrectedReachesAll | xorshift64.h:130-144 | with the intended shift, every v < n is the shifted value of some word |
| Xorshift.Xorshift64.DrawShifted | xorshift64.h:139-142 | one pass of the do/while body: one state step, the draw shifted right, accepted iff the shifted value is below n |
| Xorshift.Xorshift64.SampleShifted | xorshift64.h:139-143 | the rejection loop over shifted draws: an accepted value is below n; every earlier draw was rejected |
| Xorshift.Xorshift64.GetUint64z | xorshift64.h:132-144 | as written: any returned value is < n, and never n - 1 for n >= 3 |
| Xorshift.Xorshift64.GetUint64zCorrected | xorshift64.h:132-144 | with the corrected shift: any returned value is < n |
| Xorshift.Mix32 | xorshift64.h:201-210 | one 32-bit mixing round of create_random_seed: v ^= v << 17, then v ^= v >> 13, then v ^= v << 5 |
| Xorshift.CreateRandomSeed | xorshift64.h:191-215 | the seed is non-zero and below 2^31 (0x6a27d958 replaces a masked 0) |
| MapFile.SkipSpace | main.cc:194-199 | the skipper drops leading ASCII whitespace and stops at a non-space |
| MapFile.SkipSpaceEmpty | main.cc:199-201 | the skipper consumes a text entirely iff it is all whitespace |
| MapFile.TakeDigits | main.cc:199 | splits off the longest run of digits |
| MapFile.DigitRun | main.cc:199 | the digit run is all digits and stops at the end or at a non-digit |
| MapFile.TakeDigitsOver | main.cc:199 | digits followed by text that does not start with a digit split back into exactly those two parts |
| MapFile.Signed | main.cc:199 | a signed digit run has a value iff it fits in 32 bits, and the value carries the sign |
| MapFile.ParseInt | main.cc:199 | int_ yields a 32-bit value and consumes at least one character, stopping before a digit |
| MapFile.ParseIntShow | main.cc:199 | int_ reads back every 32-bit integer in decimal |
| MapFile.ParseIntOverflow | main.cc:199 | int_ rejects a number beyond 32 bits |
| MapFile.ParseIntDigits | main.cc:199 | an optional '-' and digits followed by a non-digit parse to the signed value when it fits in 32 bits and fail otherwise |
| MapFile.ParsePair | main.cc:199 | a pair consumes input and yields two 32-bit values |
| MapFile.ParsePairText | main.cc:199 | a pair laid out with any whitespace before each integer and around the comma reads back as itself |
| MapFile.ParsePairs | main.cc:199 | the repetition yields 32-bit pairs and never grows the input |
| MapFile.ParsePairsLayout | main.cc:199 | a well-formed layout reads back pair by pair, in order |
| MapFile.ProcessMapFile | main.cc:182-206 | every barrier returned is a pair of 32-bit values |
| MapFile.ProcessLayout | main.cc:197-205 | round trip: one or more well-formed pairs followed by whitespace read back exactly, in order |
| MapFile.ProcessSpace | main.cc:199-203 | empty or whitespace-only text yields the empty list |
| MapFile.ProcessAcceptsExactly | main.cc:199-205 | the acceptance rule of process_map_file unfolded, the step the lemmas after it build on: the result is non-empty iff at least one pair matched and only whitespace is left after the last one, and it is then exactly the matched pairs |
| MapFile.ProcessTrailingJunk | main.cc:201-203 | after valid pairs, any residue the repetition leaves that is not all whitespace yields the empty list, never the prefix |
| MapFile.ProcessStrayChar | main.cc:201-203 | one stray character that is neither whitespace nor a digit after valid pairs is such a residue |
| MapFile.ProcessOverflow | main.cc:199-203 | a file whose first number exceeds 32 bits yields the empty list |
| Startup.ExitStatus | main.cc:92-110 | usage exits 0, invalid arguments 1, a bad map 2 |
| Startup.Start | main.cc:92-117 | help wins first; width, height or mu <= 0 is rejected next; a run has valid arguments, and it has barriers iff a map file was named |
| Startup.BadMapStatus | main.cc:102-109 | a named map that yields nothing stops main with status 2 |
| Startup.BlankMapRejected | main.cc:102-109 | a named blank or unreadable map file gives status 2 |
| Startup.MapAccepted | main.cc:102-117 | a named well-formed map starts the run with exactly its pairs |
| Startup.HelpFirst | main.cc:92-96 | the usage request gives status 0 whatever else is given |

## Left out

- Coordinates, the buffer positions x + y*width and the products d*dy and d*dx of toggle_line (worker.cc:204, worker.cc:212) are 32-bit `int` in the source. The model uses unbounded integers, so the signed overflow of a grid with more than 2^31 - 1 cells, or of a line whose endpoints are far enough apart, is not modelled.
- Floating point is out. This covers:
  - `rand_exp`, whose header is not part of this model;
  - the fitness values, which are carried as opaque `real`s;
  - the rescaling every 10000 generations (worker.cc:125-136);
  - `get_double53` and `get_double52`.

  The exponential draws of the scan are an input function `draw(k, fitness)`. The first mutation target and the floored gaps are an input sequence. The raw 64-bit draws of the mutations are an input function `raw(j)`. The model therefore does not tie these draws to one shared generator stream.
- Mutation.Mutant: the fitness is multiplied as an exact real, not as a double.
- Mutation.MutantColor, Mutation.Mutations: the source multiplies the fitness (worker.cc:106) before it reads the parent's colour (worker.cc:111). The colour lives in the low bits of the same word as the fitness, so for the table entries that are not powers of two (entries 1 to 21) the colour read there comes from the low bits of the product, not from the parent. The model reads the parent's colour from before the multiply, as the rescale at worker.cc:130-133 does by saving color() first. It does not model the colour the source actually reads in the empty-pool case.
- Workers.Worker.Generation requires the supplied gaps to carry the position past the end of the grid. The source relies on its random gaps for this, since a loop that never passes the end does not terminate.
- Threads and synchronisation are not modelled: locks, the condition variable, `do_next_generation`, `stop`, `get_data` and the waiting in `do_work`. The model captures only the sequential state changes.
- I/O is not modelled: `sleep`, the timing line of `swap_buffers`, the notification of the GUI, opening the map file, `getpid` and `time`. The pid and the time are parameters of Xorshift.CreateRandomSeed. The `std::random_device` branch of `create_random_seed` is never compiled, because its macro name is misspelt (xorshift64.h:39, xorshift64.h:194).
- The cell type and its accessors come from a header that is not part of this model. A cell is a record of {null, fertile, colour, fitness}.
  - `toggle_on` makes a cell null and infertile and keeps its colour.
  - `toggle_off` makes it non-null and fertile with colour 0.
  - The colour bits and the fitness bits no longer share one word.
- `num_colors` and `num_alleles` come from that header too. They are constants of the Worker, with 2 <= num_alleles <= num_colors.
- Workers.Worker.constructor takes the default cell as a parameter, because the stale worker.h is not the declaration worker.cc compiles against.
- The iteration order of `toggle_map_` and `null_cells_` is not visible.
  - The drain takes an `order` listing every queued key once.
  - The clear-all loop picks the recorded cells in an arbitrary order, which does not change its result.
- Xorshift.Xorshift64.GetUint64x, GetUint64z and GetUint64zCorrected: the rejection loops run for at most `fuel` draws and report whether a value was accepted. Termination of the source loops is only probabilistic. `n == 0` never terminates in the source; here it is covered by the fuel.
- Xorshift.Xorshift64.Seed: the closed form of the Weyl word after seeding, w = seed2' + 256 * 0x61C8864680B583EB mod 2^64, is not stated. The model states the 256 steps of `+ 0x61C8864680B583EB` through Advance instead.
- Xorshift.Xorshift64.GetUint64z: a shift by 64 is undefined behaviour in C++ for n <= 2. The model reads it as a shift to 0.
- Startup.Start: `mu` is an exact real, so NaN is not modelled. Option parsing, the window set-up and installing the barriers into the GUI are outside the model.
- The GUI files sim1942.cc, simchcg.cc and simchcg.h are not part of this model.

## Findings

| source | as written | input that shows it | evidently intended | confidence | as-written member | corrected member |
|---|---|---|---|---|---|---|
| xorshift64.h:132-144 | the shift starts at 64 and drops by one per halving of n-1, which gives r = 65 - bitlength(n-1); u = draw >> r is then below 2^(bitlength(n-1)-1) | n = 3: r = 64 - 1 = 63, so u <= 1 and 2 is never returned, although the comment at xorshift64.h:130 promises a uniform value in [0,n) | r = 64 - bitlength(n-1), so that every value below n can be drawn | not executed | Xorshift.Xorshift64.GetUint64z, Xorshift.ShiftedAsWrittenMissesTop | Xorshift.Xorshift64.GetUint64zCorrected, Xorshift.ShiftedCorrectedReaches |
