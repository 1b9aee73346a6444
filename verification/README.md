# ogl_beamforming core, modelled in Dafny

A Dafny model of the pure logic of the ogl_beamforming ultrasound beamformer and of its three
helper programs. The model covers:

- **util.c**:
  - the Hadamard decode-matrix generator, with the hard-coded 12 x 12 table, the Sylvester doubling loop and the Kronecker product;
  - the byte-buffer primitives `mem_clear`, `mem_copy` and `mem_move`;
  - the bump allocator (`Arena`, `alloc_`, `sub_arena`, temporary arenas);
  - the append-only byte `Stream` with its sticky error flag and decimal formatting;
  - `s8` scanning and cutting;
  - `round_down_power_of_2`.
- **ui.c**, only the discrete state of the user interface:
  - the interaction state machine (`ui_begin_interact`, `ui_end_interact`, `ui_interact`);
  - `scroll_interaction` and the cycler, ruler and toggle updates;
  - the numeric text box (`update_text_input`);
  - the scale-bar zoom stack;
  - the binary tree of split regions (split, close, drawing order);
  - `validate_ui_parameters`, `table_skip_rows` and `clamp_text_to_width`.
- **helpers/comp_paper.c, helpers/send_ornot.c and helpers/throughput.c**:
  - their command-line parsers;
  - the path-building stream helpers `stream_ensure_termination`, `stream_append_u64_width` and `stream_push_file_end_at_index`;
  - the `zemp_bp_v1` parameter-file reader and its copy into the beamformer parameters;
  - the output-point fallback and the compute-stage lists;
  - comp_paper's frame scan and FFT work schedule;
  - throughput's 32-entry ring of frame times.

The modelling choices:

- Memory is a `seq<byte>`.
- Pointers into it are indices.
- Fixed-width C integers are unbounded integers with the wrap-around written out where the source relies on it (`WrapU32`). Where a wrap would break an operation's result, a precondition keeps it out and "## Left out" says so.
- `f32` values are `real` wherever only ordering and addition matter.
- Command-line arguments are the byte strings `c_str_to_s8` sees.
- The program's I/O, its clock and the raylib input functions become parameters: the set of files that exist, the keys pressed, the mouse coordinate already mapped to the world.

Each parser has a partner, the rendering of a list of switches back to an argv. A round-trip lemma shows that parsing a rendered command line recovers the switches.

The two macros `CLAMP` and `BETWEEN` come from util.h, which is not part of this model. They are taken to be the usual inclusive clamp and range test.

Three more readings decide behaviour:

- util.c declares `mem_copy` and `mem_move` source first (util.c:27, util.c:35). The calls in ui.c (`update_text_input`, ui.c:2497-2499, 2511-2513 and 2519-2521) and in the helpers' parameter fill (helpers/comp_paper.c:532-544) pass the destination first. Taken literally, an inserted character would shift the tail left over the cursor. The model follows the calls' evident intent, a copy from the second argument into the first. `TextInput` makes these shifts through `Memory.MemMove`, whose arguments follow util.c's order, and `ZempBp` copies each field from the file into the parameters.
- `clz_u32` is not part of this model. It is taken to count the leading zero bits of a `u32`, with 32 for 0. `0x80000000UL >> 32` is then taken with a 64-bit `unsigned long`, which gives 0. With a 32-bit `unsigned long` that shift is undefined in C.
- The helpers' `stream_append(s, p, n)` (helpers/comp_paper.c:430, helpers/throughput.c:217) is not defined in these sources. It is modelled as `stream_append_s8` of the n bytes at p.

## Model

| member | source | states |
|---|---|---|
| Hadamard.H12IsHadamard | util.c:2-15 | the hard-coded 12 x 12 table has entries +-1, a first row and column of 1s, and orthogonal rows (each row's dot product with itself is 12, with any other row 0) |
| Hadamard.SylvesterOrthogonal | util.c:593-604 | rows r != s of the Sylvester sign pattern of any power-of-two size n are orthogonal, and each row has squared length n |
| Hadamard.SignDoubling | util.c:598-601 | one doubling step copies the k x k block to the right and below and negates it on the diagonal |
| Hadamard.SignRowDoubling | util.c:598-600 | row i + k of the Sylvester pattern repeats row i in the first k columns |
| Hadamard.SignDiagonalDoubling | util.c:601 | entry (i + k, j + k) of the Sylvester pattern is the negation of entry (i, j) |
| Hadamard.SignSymmetric | util.c:593-604 | the Sylvester pattern is symmetric, so the generated matrix equals its transpose |
| Hadamard.KroneckerBlock | util.c:557-571 | for sizes 12 * 2^p, the entry at block (bi, bj) and offset (r, c) is the Sylvester sign of the blocks times the 12 x 12 table entry |
| Hadamard.KronDotBlocks | util.c:544-571 | the dot product of two Kronecker-product rows splits into the Sylvester dot product of their blocks times the table's dot product |
| Hadamard.KroneckerOrthogonal | util.c:557-571 | for sizes 12 * 2^p, distinct rows of the Kronecker product are orthogonal and each row's squared length is the size |
| Hadamard.HadamardOrthogonal | util.c:573-610 | for every size the generator can build, the matrix is Hadamard: distinct rows are orthogonal and each row's squared length is the size |
| HadamardFill.SylvesterFill | util.c:593-604 | the doubling loop fills every entry of the power-of-two matrix with its Sylvester sign |
| HadamardFill.DoubledBlockSigned | util.c:594-603 | a k x k block of Sylvester signs, doubled as the loop body does it, is the 2k x 2k block of signs |
| HadamardFill.FillKroneckerSubMatrix | util.c:544-555 | writes scale times the table into exactly one 12 x 12 block of the output and leaves every other entry unchanged |
| HadamardFill.KroneckerProduct | util.c:557-571 | every output entry (x, y) is a[x / 12, y / 12] times b[x % 12][y % 12] |
| HadamardFill.FillBlockRow | util.c:562-568 | one pass of the outer loop fills band i of blocks with a[i, j] times the table and changes no other row |
| HadamardFill.BuildMatrix | util.c:584-609 | the matrix built for a constructible size holds the Hadamard entry at every position |
| HadamardFill.FillHadamardTranspose | util.c:573-610 | an unsupported size leaves the output untouched; a supported one whose doubling loop stays within 2^16 rows writes the Hadamard matrix row-major into the first dim * dim entries and nothing after them |
| HadamardFill.LoopIndexFits | util.c:593-603 | for a loop side of at most 2^16 the `u32` index `i * dim + j` of every entry is exact |
| HadamardFill.LoopIndexWraps | util.c:593-603 | for a loop side of 2^17 the index of row 2^15 wraps onto row 0 |
| Memory.MemClear | util.c:18-24 | the result is the memory with exactly the len bytes at p set to c |
| Memory.MemCopy | util.c:26-32 | the destination range receives the bytes the source range held before the call, and the rest of memory is unchanged |
| Memory.MemMove | util.c:34-39 | even with overlapping ranges, the destination receives the source's original bytes and nothing else changes |
| Memory.OverwriteSelf | util.c:34-39 | moving a range onto itself changes nothing |
| Memory.MoveBackRestores | util.c:34-39 | with disjoint ranges, moving the bytes back after a move changes nothing further |
| Arenas.Padding | util.c:58 | `-beg & (align - 1)` is the least padding that aligns beg: below align, and 0 when beg is already aligned |
| Arenas.ArenaCommit | util.c:42-47 | a commit succeeds exactly when size fits, and then advances beg by size and keeps end |
| Arenas.Alloc | util.c:49-66 | the zero arena gives null; the request fails exactly when padding plus count * len exceeds the space left; otherwise the result is aligned, lies within align of beg, is zeroed, and no other byte changes |
| Arenas.SubArena | util.c:68-79 | a child of exactly len bytes is carved at the aligned start, and the parent resumes right after it |
| Arenas.EndTempArena | util.c:88-96 | ending a temporary arena restores the saved start exactly when the arena has not shrunk below it |
| Arenas.Step | util.c:49-79 | one allocation or sub-arena request only moves beg forward and keeps the memory size |
| Arenas.RunGrows | util.c:49-79 | any sequence of requests only moves beg forward and never moves end |
| Arenas.TempArenaRestores | util.c:81-96 | a temporary arena taken before any sequence of allocations gives back the original arena when it ends |
| Arenas.AllocationsDisjoint | util.c:49-66 | a second allocation starts after the end of the first |
| Streams.Written | util.c:116-121 | `stream_to_s8` is the first widx bytes of the buffer |
| Streams.AppendByte | util.c:123-129 | appends the byte when it fits; otherwise sets the error flag, which then stays set, and writes nothing |
| Streams.AppendS8 | util.c:131-139 | appends the whole string when it fits; otherwise sets the sticky error flag and writes nothing |
| Streams.ErrorsSticky | util.c:123-139 | once a stream has errors, appends leave it unchanged |
| Streams.AppendArrayIsAppendConcat | util.c:141-149 | appending the strings one by one fails exactly when appending their concatenation would, and otherwise writes that concatenation |
| Streams.Digits | util.c:151-159 | the decimal text of n is non-empty and all digits |
| Streams.DigitsRoundTrip | util.c:151-159 | reading the decimal text back gives n |
| Streams.DigitsNoLeadingZero | util.c:151-159 | the text starts with '0' only for n = 0 |
| Streams.DigitsLength | util.c:151-159 | a `u64` needs at most 20 digits, so the 64-byte buffer suffices |
| Streams.U64Digits | util.c:151-159 | the do-while loop produces the decimal text of n |
| Streams.AppendU64 | util.c:151-159 | appends the decimal text of n under the stream's capacity rule |
| Streams.AppendI64 | util.c:161-169 | appends '-' and the magnitude for a negative n, else the digits, for every i64 including the minimum, whose negation is taken in two's complement and read as 2^63 as a u64. It fails exactly when the text does not fit. On failure the '-' stays written if it alone fit, and nothing else changes. |
| Streams.AppendArrayPartial | util.c:131-149 | appending strings one by one writes exactly the leading strings whose running total fits; it fails exactly when some string is left over, and bytes past the write index are untouched |
| Streams.AppendsDetermined | util.c:131-138 | the append contract fixes the result: a stream that fails exactly when the string does not fit, keeps its contents on failure, and otherwise writes the string after the old contents and nothing past it, is the one `stream_append_s8` produces |
| Streams.SignedDecimalRoundTrip | util.c:161-169 | the signed text reads back as n, with a leading '-' exactly for negative n |
| Streams.ArenaStream | util.c:98-106 | the stream takes the whole free part of the arena, starts empty and error-free, and leaves the arena full |
| Strings.LastIndexOf | util.c:279-287 | -1 exactly when the byte is absent; otherwise an index holding the byte with no later occurrence |
| Strings.ScanBackwards | util.c:280-287 | the backwards loop finds the last occurrence, or -1 |
| Strings.LastIndexOfDropLast | util.c:284 | a last byte that is not the target does not affect the answer |
| Strings.LastIndexOfLastByte | util.c:283-286 | a target at the end is found there |
| Strings.CutHead | util.c:289-298 | a positive cut drops exactly that many leading bytes, and the rest of the string is unchanged |
| Strings.Equal | helpers/throughput.c:287-297 | `s8_equal` is true exactly when the two strings are equal |
| Strings.FirstIndexOf | helpers/send_ornot.c:340-341 | the index the scan of `s8_split` stops at: the first occurrence of the byte, or the length when there is none |
| Strings.Halve | helpers/send_ornot.c:337-349 | the left half holds no separator; the right half exists exactly when the separator occurs, and without it the left half is the whole input |
| Strings.HalveRejoins | helpers/send_ornot.c:337-349 | when the separator occurs, the input is left + separator + right |
| Strings.Split | helpers/send_ornot.c:337-349 | the loop of `s8_split` computes those halves |
| Strings.HalveAt | helpers/send_ornot.c:337-349 | cutting left + [b] + right, with no b in left, gives back left and right |
| Strings.TrimLeft | helpers/send_ornot.c:351-357 | the result is a suffix that does not start with a space, and only spaces were removed |
| Strings.TrimLeftIdempotent | helpers/send_ornot.c:351-357 | trimming twice is trimming once |
| Strings.TrimLeftRemovesLeadingRun | helpers/send_ornot.c:351-357 | any run of leading spaces is removed, and nothing more |
| Bits.Clz32 | util.c:314-319 | counting leading zeros of a `u32` gives at most 32, and exactly 32 for 0 |
| Bits.ShiftToTopBit | util.c:314-319 | shifting 0x80000000 right by the leading-zero count gives the top set bit |
| Bits.RoundDownPowerOfTwo | util.c:314-319 | 0 gives 0; otherwise the result is a power of two r with r <= a < 2r |
| TextInput.InsertKey | ui.c:2494-2502 | an accepted key is inserted at the cursor, and the cursor and count move up by one |
| TextInput.TypedInsertsAccepted | ui.c:2489-2503 | a burst of typed keys keeps the text before and after the cursor and inserts only accepted characters between them |
| TextInput.TypeKeys | ui.c:2489-2503 | the key loop stops at a full buffer and equals the functional typing model |
| TextInput.MoveCursor | ui.c:2505-2506 | the arrow keys move the cursor by at most one within [0, count] and leave the text alone |
| TextInput.Backspace | ui.c:2508-2516 | removes the character before the cursor and moves the cursor left |
| TextInput.Delete | ui.c:2518-2522 | removes the character at the cursor and keeps the cursor |
| TextInput.RemoveUndoesInsert | ui.c:2496-2522 | deleting at the insertion point undoes an insertion |
| TextInput.UpdateTextInput | ui.c:2478-2523 | one frame's text and cursor are those of the typed burst, then Left/Right, then Backspace, then Delete, applied edit by edit to the text (`TextInput.Edited`); without backspace or delete the text never shrinks |
| TextInput.TypeThenBackspace | ui.c:2489-2516 | typing an accepted character and pressing Backspace in the same frame leaves the text and cursor as they were |
| TextInput.LeftThenDeleteIsBackspace | ui.c:2505-2522 | Left followed by Delete in one frame removes the same character as Backspace |
| Interaction.BeginInteract | ui.c:2625-2673 | a hot variable of the kind that keeps the current interaction leaves it alone; otherwise the new interaction is scroll, text, menu, drag or no-op exactly for the variable kinds and inputs the source assigns them |
| Interaction.EndInteract | ui.c:2741-2748 | ending inside a menu that does not close returns to the menu, otherwise to no interaction |
| Interaction.Press | ui.c:2758-2762 | a click or wheel movement ends the current interaction and begins one; text or drag is only entered for a hot variable of that kind |
| Interaction.ToggleInvolution | ui.c:2685 | toggling a flag twice restores it |
| Interaction.CyclerClick | ui.c:2689-2692 | a click advances the cycler by one and wraps from the last state to 0 |
| Interaction.CyclerScrollAsWritten | ui.c:2420-2423 | as written: the result is in range, a scroll up is a click, and a scroll down from a state above 0 steps back one |
| Interaction.CyclerScrollDownFromZero | ui.c:2420-2423 | with three states, scrolling down from state 0 stays at 0 as written, where the intended step gives 2 |
| Interaction.CyclerScroll | ui.c:2420-2423 | the intended cycler scroll steps forward or back one and wraps at both ends |
| Interaction.CyclerScrollInverse | ui.c:2420-2423 | scrolling up then down, or down then up, returns to the original state |
| Interaction.CyclerScrollAgrees | ui.c:2420-2423 | the written and the intended scroll agree except when scrolling down from 0, where they agree exactly when the cycle length divides 2^32 |
| Interaction.ViewScroll | ui.c:2424-2427 | the view offset moves by the scaled delta and is clamped below at 0 |
| Interaction.ViewScrollBack | ui.c:2424-2427 | scrolling back by the same delta restores an offset that was not clamped |
| Interaction.Clamp | ui.c:2415 | the clamped value lies within [lo, hi], and a value already inside is unchanged |
| Interaction.ScrollInteraction | ui.c:2396-2430 | each kind changes as the switch says, with the intended cycler step (the step as written is `CyclerScrollAsWritten`). A toggle flips. A float adds the delta. An integer adds it and truncates toward zero. A scaled value adds delta times its scale. A frame view moves its threshold and asks for a redraw. A beamformer value adds delta times its scroll scale and is clamped to its limits. A cycler steps up for a positive delta and down otherwise. A view moves by 12 per unit and stops at 0. |
| Interaction.ScrollU32 | ui.c:2403 | a `u32` scrolled by a float delta stays a `u32` and, when the sum is in range, is that sum truncated toward zero |
| Interaction.ScrollThenScrollBack | ui.c:2396-2430 | a wheel step followed by the opposite step restores every kind of value (a frame view keeps its redraw request), when no clamp cut the first step and integers move by whole numbers |
| Interaction.PressForgetsCurrent | ui.c:2741-2762 | the interaction a press interrupts never shapes the one it begins; outside an open menu the result is that of a press from no interaction |
| Interaction.PressOnKeptVariableEnds | ui.c:2741-2762 | a press on nothing, or on a variable the switch assigns no type, only ends the running interaction, returning to a menu exactly when inside one that stays open |
| Interaction.RulerClick | ui.c:2696-2710 | the first click sets the start, the second the end, the third clears the ruler |
| Interaction.RulerCycle | ui.c:2696-2710 | three clicks from an empty ruler leave the two measured points and no active ruler |
| ScaleBars.LeftClick | ui.c:2534-2563 | the first click records the start; the second pushes the old extent and zooms to the ordered span between the two clicks |
| ScaleBars.RightClick | ui.c:2565-2573 | pops and restores the last saved extent when there is one, and always clears the start |
| ScaleBars.Wheel | ui.c:2575-2578 | both ends shift by the wheel times their scroll scales; the start and the saved stack stay |
| ScaleBars.Interact | ui.c:2525-2580 | a right click always clears the start; no input changes nothing; the stack grows by at most one |
| ScaleBars.ZoomThenUndo | ui.c:2534-2573 | a zoom followed by an undo restores the scale bar |
| ScaleBars.ZoomsThenUndos | ui.c:2534-2573 | any sequence of zooms, each chosen by two arbitrary clicks, followed by as many undos restores the scale bar |
| Regions.ReplaceAt | ui.c:1131-1143 | after replacing the node at a path, the path is still valid and leads to the new node |
| Regions.ReplaceWithSelf | ui.c:1131-1143 | replacing a node with itself changes nothing |
| Regions.GetExtend | ui.c:1131-1143 | following p and then q is following p + q |
| Regions.ViewsReplace | ui.c:1131-1143 | the left-to-right list of views after a replacement is the views before the path, then the new subtree's, then those after it |
| Regions.SplitRegion | ui.c:1131-1143 | splitting a view puts a half-and-half split in its place with the old view left and the new view right; the view list gains the new view right after the old one |
| Regions.CloseView | ui.c:2600-2620 | closing needs a view under a split; the split is replaced by the view's sibling |
| Regions.SplitThenCloseRestores | ui.c:2600-2620 | closing the view a split just added restores the tree |
| Regions.CloseRemovesView | ui.c:2600-2620 | closing removes exactly the closed view from the view list |
| Regions.DrawOrder | ui.c:2355-2394 | the explicit-stack walk of `draw_ui_regions` visits the regions in pre-order |
| UiLayout.ValidateUiParameters | ui.c:2868-2875 | the lateral and axial bounds come out ordered, each pair is the same two values, the other components are untouched, and ordered input is unchanged |
| UiLayout.ValidateIdempotent | ui.c:2868-2875 | validating twice is validating once |
| Base.Truncate | ui.c:533-539 | C's float-to-int conversion rounds toward zero |
| UiLayout.TableSkipRowsFits | ui.c:533-539 | the rows kept fit in the draw height, and one more would not whenever rows are skipped |
| UiLayout.ClampTextToWidth | ui.c:468-482 | the result is a prefix whose every shorter-or-equal prefix fits the limit; if cut, one more character would exceed it |
| UiLayout.ClampIsLongest | ui.c:468-482 | with non-negative glyph widths, once a prefix is too wide every longer one is too, so the clamped text is the longest that fits |
| PathStreams.EnsureTermination | helpers/comp_paper.c:405-416 | a stream already ending in the byte is unchanged; otherwise the byte is appended when it fits, and the stream fails when it does not |
| PathStreams.EnsureTerminationIdempotent | helpers/throughput.c:192-203 | terminating twice is terminating once |
| PathStreams.ZeroPadded | helpers/comp_paper.c:418-431 | the text is the decimal digits, left-padded with '0' to min(width, 64) characters |
| PathStreams.ZeroPaddedValue | helpers/comp_paper.c:418-431 | zero padding does not change the number the text denotes |
| PathStreams.WidthDigits | helpers/comp_paper.c:418-431 | the digit loop of `stream_append_u64_width` produces the zero-padded text |
| PathStreams.PushU64Width | helpers/throughput.c:205-218 | appends the zero-padded text under the stream's capacity rule |
| PathStreams.PushFileEndAtIndex | helpers/comp_paper.c:433-440 | appends "_", the two-digit index, ".zst" and a NUL, and fails exactly when these do not fit. The result is that of appending the four pieces as an array, so on failure exactly the pieces that fit whole are written (`Streams.AppendArrayPartial`). |
| PathStreams.OutputBaseName | helpers/send_ornot.c:227-245 | appends the input up to, not including, its last '.' |
| ZempBp.LayoutIsStructSize | helpers/comp_paper.c:290-310 | the field layout of `zemp_bp_v1` packs to the struct's size |
| ZempBp.WordRoundTrip | helpers/comp_paper.c:517-527 | a value that fits in w bytes survives little-endian encoding and decoding |
| ZempBp.BytesRoundTrip | helpers/comp_paper.c:517-527 | w bytes survive decoding and re-encoding |
| ZempBp.FieldsRoundTrip | helpers/comp_paper.c:517-527 | decoding the encoding of any conforming field list gives back the fields |
| ZempBp.FieldsBytesRoundTrip | helpers/comp_paper.c:517-527 | encoding the decoding of a file of the right size gives back its bytes |
| ZempBp.ReadZempBpV1 | helpers/send_ornot.c:283-293 | a file is accepted exactly when it is `zemp_bp_v1`-sized with the magic and version 1, and then yields conforming fields with those values |
| ZempBp.HeaderFields | helpers/send_ornot.c:283-293 | the magic and the version are the little-endian words in bytes 0-7 and 8-11 |
| ZempBp.WriteThenRead | helpers/send_ornot.c:283-293 | writing conforming version-1 fields and reading them back gives the fields |
| ZempBp.ReadThenWrite | helpers/send_ornot.c:283-293 | an accepted file is exactly the encoding of what was read |
| ZempBp.FillBeamformerParameters | helpers/send_ornot.c:295-320 | every field is copied across. With sparse element -1, entry i becomes channel i below the decoded transmit count, and the rest keep their old values. Otherwise the sparse elements are copied. A count above 256 is reported as an overrun of the array. |
| ZempBp.FillIdempotent | helpers/send_ornot.c:295-320 | filling a second time from the same file changes nothing |
| ZempBp.FillDeterminedByFile | helpers/send_ornot.c:306-311 | the file alone decides the filled parameters exactly when the sparse elements are copied or the count covers all 256 entries |
| CompPaper.ParseArgv | helpers/comp_paper.c:583-619 | the first remaining argument is no switch; a trailing "--export" reads past argv with no prefix; usage comes only from an unknown switch |
| CompPaper.Classify | helpers/comp_paper.c:591-615 | an argument is an operand exactly when it does not start with '-', and an unknown switch exactly when it starts with '-' and is no known flag |
| CompPaper.ParseRendered | helpers/comp_paper.c:583-619 | parsing any rendered list of switches followed by a base path recovers those switches, later ones winning, and stops at the path |
| CompPaper.ParseFromRendered | helpers/comp_paper.c:583-619 | the same from any position of the loop |
| CompPaper.ParseStep | helpers/comp_paper.c:594-610 | one rendered switch is consumed with its argument and applied to the options |
| CompPaper.InitialGains | helpers/comp_paper.c:693-703 | samples / 2 gains, 1 at both ends and 1 + analytic in between |
| CompPaper.LowPassMidpoint | helpers/comp_paper.c:719-720 | the centre tap of an odd or even kernel is in range with at most one more tap after it than before; order 0 gives 0 |
| CompPaper.FftSchedule | helpers/comp_paper.c:800-841 | one visit per channel, in order, at the offset channel in `u32`; with a filter, each transmit's block offset is computed in `u32` |
| CompPaper.ScheduleVisitsRangeOnce | helpers/comp_paper.c:805-813 | without wrap-around the visited channels strictly increase and are exactly offset .. offset + channels - 1 |
| CompPaper.SendFrameChannels | helpers/comp_paper.c:887-892 | the FFT work of a frame covers decoded .. 2 * decoded - 1 for an even transmit mode with differing raw and decoded channel counts, and 0 .. decoded - 1 otherwise, each channel once and in order |
| CompPaper.ValidFrames | helpers/comp_paper.c:997-1004 | the frame numbers found on disk, in increasing order, each within 0 .. 8, none missing |
| CompPaper.OutputPoints | helpers/comp_paper.c:934-937 | the settings' grid unless x, y and z are all 0, then the default; the frame count is the smaller of the valid frames and the requested frames |
| CompPaper.OutputPointsSettle | helpers/comp_paper.c:934-937 | the chosen grid is never all zero, and choosing again from the chosen points keeps them |
| CompPaper.Stages | helpers/comp_paper.c:1010-1015 | complex decode when any FFT filter is on, else decode; then DAS; then SUM exactly for more than one frame |
| CompPaper.FramesReadAsWritten | helpers/comp_paper.c:1034-1041 | as written: count - 1 found frames, then frame number count - 1 in `u32` |
| CompPaper.LastFrameReadIsMissing | helpers/comp_paper.c:1040 | with frames 0 and 2 on disk the program reads frame 1, which does not exist; with none it reads frame 2^32 - 1 |
| CompPaper.FramesRead | helpers/comp_paper.c:1034-1041 | intended: the first count found frames, and nothing when no frame was found |
| CompPaper.FramesReadExist | helpers/comp_paper.c:997-1041 | every frame the corrected loop reads exists on disk, in increasing order |
| SendOrNot.ParseV2Tokens | helpers/send_ornot.c:359-394 | no argument gives {0, 0}; without a space the second component is 0; the first token holds no space and the second does not start with one |
| SendOrNot.ParseV2Braces | helpers/send_ornot.c:359-394 | "{a, b}" reads back as the tokens a and b followed by "}" |
| SendOrNot.XTokenOfBraced | helpers/send_ornot.c:370-373 | "{a," gives the token a |
| SendOrNot.YTokenOfPlain | helpers/send_ornot.c:380-385 | a right half that starts with neither a space nor a comma, and does not end with a comma, is its own token |
| SendOrNot.ParseArgv | helpers/send_ornot.c:408-448 | the first remaining argument is no switch; reading past argv happens only for a trailing extent switch; usage comes only from an unknown switch |
| SendOrNot.Classify | helpers/send_ornot.c:419-440 | operand exactly for a non-switch; unknown switch exactly for a switch that is none of the four flags |
| SendOrNot.ParseRendered | helpers/send_ornot.c:408-448 | parsing any rendered list of switches followed by an operand recovers them over the defaults and stops at the operand |
| SendOrNot.ParseFromRendered | helpers/send_ornot.c:408-448 | the same from any position of the loop |
| SendOrNot.LaunchFrom | helpers/send_ornot.c:451-491 | the program starts exactly when parsing succeeds with at least three arguments left, with the base name, the data directory and the stage list taken from them |
| SendOrNot.Stages | helpers/send_ornot.c:483-491 | float or integer decode, CUDA Hilbert exactly with --hilbert, and DAS last |
| Throughput.ParseArgv | helpers/throughput.c:299-333 | the first remaining argument is no switch, and usage comes only from an unknown switch |
| Throughput.ParseOne | helpers/throughput.c:310-326 | a trailing "--frame" with no number is consumed and leaves the frame alone |
| Throughput.ParseRendered | helpers/throughput.c:299-333 | parsing any rendered list of switches followed by a base path recovers them and stops at the path |
| Throughput.ParseFromRendered | helpers/throughput.c:299-333 | the same from any position of the loop |
| Throughput.LaunchAsWritten | helpers/throughput.c:463-476 | as written: starts with one or two remaining arguments, and with one the study is read from the null pointer after argv |
| Throughput.LaunchReadsMissingStudy | helpers/throughput.c:468-474 | "throughput base" passes the check and reads the study from the null pointer |
| Throughput.LaunchFrom | helpers/throughput.c:463-476 | intended: starts exactly with two remaining arguments, the base path and the study |
| Throughput.LaunchAgrees | helpers/throughput.c:468-474 | the intended check starts exactly where the written one starts with a real study, and then agrees with it |
| Throughput.OutputPoints | helpers/throughput.c:386-390 | the settings' grid unless x, y and z are all 0, then the default; one frame either way |
| Throughput.OutputPointsSettle | helpers/throughput.c:386-390 | the chosen grid is never all zero, and choosing again from the chosen points keeps them |
| Throughput.Stages | helpers/throughput.c:408-412 | CUDA decode exactly with --cuda, else decode, then DAS |
| Throughput.LowBitsIsMod | helpers/throughput.c:439 | keeping the low n bits is the remainder by 2^n |
| Throughput.RingSlot | helpers/throughput.c:439 | `frame & 31` always indexes inside the 32-entry `times` array and equals frame mod 32 |
| Throughput.RingAdvance | helpers/throughput.c:439-440 | k frames later the slot has moved k places round the ring, also across the `u32` wrap of the counter |
| Throughput.RingWindowDistinct | helpers/throughput.c:431-440 | any 32 consecutive frames write 32 different slots |

## Left out

- FFT numerics (FFTW plans and the complex multiply), the worker threads of comp_paper, and the SIMD float conversions: only the index arithmetic is modelled. THREAD_COUNT is 0.
- File, pipe and zstd I/O, `os_*` calls, timing, `printf` and rendering with raylib: they appear as parameters or are dropped.
- `strtod`, `atoi` and float formatting (`stream_append_f64`, `stream_append_f64_e`, `parse_f64`): numbers parsed from text stay as their text.
- helpers/send_params.c is not part of this model.
- The `raw_data_dim.z > 1` branch of comp_paper's `execute_work_item` and its prompt loop are left out.
- `f32` rounding of the extents and scales is not modelled; they are reals.
- File watches, `s8_hash`, vector maths and the drawing code of ui.c are left out.
- Hadamard.HadamardOrthogonal: sizes 12 * m with m not a power of two (for example 36) are left out. The source builds no Hadamard matrix for them, and its doubling loop writes past the m x m scratch matrix.
- HadamardFill.FillHadamardTranspose: requires such sizes to be absent, for the same reason. It also requires the side of the doubling loop (dim, or dim / 12) to be at most 2^16. Above that the `u32` index `IND(i, j)` (util.c:593) wraps, and the loop overwrites earlier rows (`HadamardFill.LoopIndexWraps`). Within the bound the `i32` stride that `kronecker_product` passes to `fill_kronecker_sub_matrix` (util.c:545, util.c:561-569) is at most 12 * 2^16 and does not overflow.
- Streams.AppendI64: for INT64_MIN, `n *= -1` (util.c:166) is a signed overflow that C leaves undefined. The model takes the two's-complement result, which prints "-9223372036854775808".
- Memory.MemCopy: requires ranges that a forward byte-by-byte copy handles (`dest <= src` or disjoint). The source declares `restrict` but `mem_move` calls it with overlapping ranges when dest < src.
- ZempBp.FillBeamformerParameters: a file with first sparse element -1 and a decoded transmit count above 256 makes the counting loop write past the 256-entry `uforces_channels` array. The memory after the array is not part of the model. The method reports such a file through its `overrun` result and states only the writes inside the array.
- Interaction.ScrollInteraction: the `i32` and `u32` cases add in floating point and truncate back toward zero. `f32` rounding is not modelled. A `u32` sum outside [0, 2^32) is taken modulo 2^32, and an `i32` sum is not bounded to 32 bits. C leaves both conversions undefined.
- Strings.CutHead: requires the cut to be at most the length. The source does not check this, and a longer cut would leave a negative length.
- CompPaper.InitialGains: requires at least one bin. With fewer than two samples the source's loop bound wraps and it writes outside the array.
- PathStreams.OutputBaseName: requires a '.' in the name. Without one the length drops to -1. `stream_append_s8` then sets no error, since the free room is never below -1 (util.c:134). The copy of length -1 that follows fails `ASSERT(n >= 0)` in `mem_copy` (util.c:29). With assertions off, its `for (; n; n--)` loop (util.c:31) does not end.
- Throughput.ParseArgv: keeps the text after "--frame" instead of the number `atoi` makes of it.
- SendOrNot.ParseV2Tokens: `SendOrNot.ParseV2` gives the tokens `strtod` would read, not the numbers.
- CompPaper.ParseArgv: keeps "--export" with no path as an absent prefix, where the source copies the null pointer that ends argv.

## Findings

| source | as written | input that shows it | evidently intended | confidence | as-written member | corrected member |
|---|---|---|---|---|---|---|
| ui.c:2420-2423 | the cycler's `u32` state is decremented and then reduced `% cycle_length` | cycle length 3 at state 0, scrolled down: 2^32 - 1 mod 3 = 0, so the state stays 0 | wrap to the last state, cycle_length - 1 | high, not executed | Interaction.CyclerScrollAsWritten | Interaction.CyclerScroll |
| helpers/comp_paper.c:1040 | the last frame read is frame number `output_points[3] - 1`, not the `output_points[3] - 1`-th valid frame | frames 0 and 2 on disk, two requested: the program reads frame 1, which is missing; with no frame on disk it reads frame 2^32 - 1 | `valid_frame_indices[output_points[3] - 1]`, with nothing read when no frame exists | high, not executed | CompPaper.FramesReadAsWritten | CompPaper.FramesRead |
| helpers/throughput.c:468-469 | `BETWEEN(remaining_count, 1, 2)` accepts one remaining argument, and `remaining[1]` is then read | argv "throughput base": the study string is built from argv's terminating null pointer | require both the base path and the study, as the usage line says | high, not executed | Throughput.LaunchAsWritten | Throughput.LaunchFrom |
