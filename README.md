# A verified model of a Rust hobby repository's core

This project models, in Dafny, the parts of the repository that have clear
contracts:

- **The fuzzer's memory management unit** (`fuzzing/src/riscv.rs`):
  - a byte-addressed address space with per-byte permissions `READ`,
    `WRITE`, `EXEC` and `RAW` (read-after-write);
  - dirty-block tracking through a list and a bitmap, used to reset a
    forked copy cheaply;
  - a bump allocator.

  `MmuSpec` (mmu_spec.dfy) states each operation on values. The class
  `Riscv.Mmu` (mmu.dfy) holds the memory and permissions in arrays and
  updates them in place. Each of its methods is proved against the
  `MmuSpec` function.
- **The roguelike's map** (`roguelike/src/map.rs`):
  - rectangles, and the 80×50 tile grid with its index arithmetic;
  - carving of rooms and L-shaped corridors, the blocked-tile index and
    the exits of a tile;
  - the random rooms-and-corridors generator, with the random numbers
    supplied as input.

  `RoguelikeMap.Map` is a class over arrays.
- **The puzzle solutions of `src/advent.rs`**:
  - day 1 (top three calorie sums);
  - day 2 (rock-paper-scissors scoring);
  - day 3 (the letter-priority table, and the item that rucksack halves
    or groups share);
  - day 4 (section ranges and containment);
  - day 6 (the first window of distinct characters).

  The Rust library behaviour they rely on is modelled in `RustStr` and
  `RustSlice`: `split` (on a character, on a string, and on `""`), `trim`,
  `parse::<u64>`, `reverse` and `sum`. A `panic!`, a failed `assert!` or an
  `unwrap` on an error becomes a `None` result. Where the panic is the
  caller's fault, it becomes a precondition instead.
- **The Bloom filter** (`bloom/src/lib.rs`). Its SHA3-256 digest is a
  function parameter.
- **`bubble_sort`** (`src/main.rs`). It works in place on an array of items
  with an integer key, so that stability can be stated.

Rust's fixed-width integers are unbounded here, except where the width
matters:

- `checked_add` is checked against `usize::MAX`;
- `i32` division truncates toward zero;
- the `size * 0xf` of the allocator wraps.

## Model

| member | source | states |
|---|---|---|
| MmuSpec.InBoundsIsFit | fuzzing/src/riscv.rs:109-111 | the `checked_add` plus `get_mut` range test succeeds exactly when `addr + len` fits in memory |
| MmuSpec.UpgradeGrantsRead | fuzzing/src/riscv.rs:143-148 | the RaW upgrade gives READ exactly to bytes that had READ or RAW, and changes no other flag |
| MmuSpec.SetPermissionsExact | fuzzing/src/riscv.rs:184-190 | `set_permissions` succeeds iff the range fits; it then sets exactly `[addr, addr+size)` to `perm` and nothing else |
| MmuSpec.WriteFailsExactly | fuzzing/src/riscv.rs:108-120 | `write_from` fails iff the range does not fit or some byte in it lacks WRITE |
| MmuSpec.WriteEffect | fuzzing/src/riscv.rs:108-150 | a successful write stores the buffer in the range and leaves every other byte alone; inside the range RAW bytes gain READ and no other flag changes |
| MmuSpec.ReadExactly | fuzzing/src/riscv.rs:152-165 | `read_into` succeeds iff the range fits and every byte has READ, and then it yields exactly those bytes |
| MmuSpec.ReadAfterWrite | fuzzing/src/riscv.rs:108-165 | after a successful write to bytes that are READ or RAW, reading the same range returns the written bytes |
| MmuSpec.UnwrittenRawUnreadable | fuzzing/src/riscv.rs:29-39 | in a freshly allocated RAW region, a read longer than the written prefix is refused |
| MmuSpec.BlockInBitmap | fuzzing/src/riscv.rs:76 | every block up to `size / 4096` has its bit inside the `size / 4096 / 64 + 1` bitmap words |
| MmuSpec.TouchedCoversWrite | fuzzing/src/riscv.rs:126-129 | the blocks `start..=end` cover every written byte and all have a bitmap bit |
| MmuSpec.RestoreUndoes | fuzzing/src/riscv.rs:91-107 | copying the dirty blocks back from the baseline gives the baseline iff all differences lie in dirty blocks; with no dirty blocks nothing changes |
| MmuSpec.WriteKeepsClean | fuzzing/src/riscv.rs:108-140 | a write whose touched blocks are added to the dirty set keeps every difference from the baseline inside dirty blocks |
| MmuSpec.WriteAllKeepsClean | fuzzing/src/riscv.rs:108-140 | the same for any sequence of writes |
| MmuSpec.ResetUndoesWrites | fuzzing/src/riscv.rs:80-107 | fork, any sequence of writes, then reset from the parent gives back the parent's memory and permissions |
| MmuSpec.AlignUp | fuzzing/src/riscv.rs:170 | the corrected rounding is a multiple of 16, at least the size and less than size + 16 |
| MmuSpec.Allocate | fuzzing/src/riscv.rs:169-183 | corrected (see Findings): a refused allocation keeps the cursor; a granted one returns the old cursor and advances it by the rounded size, within memory; it is granted iff the cursor is inside memory and the rounded region fits |
| MmuSpec.AllocateAllBounds | fuzzing/src/riscv.rs:169-183 | over any series of allocations, every granted region lies between the first cursor and the final one, within memory, 16-aligned when the cursor starts aligned |
| MmuSpec.AllocationsDisjoint | fuzzing/src/riscv.rs:169-183 | granted regions of successive allocations never overlap |
| MmuSpec.RefusalRepeats | fuzzing/src/riscv.rs:172-179 | a refused allocation is refused again when repeated |
| MmuSpec.ResetRangeCoversBlock | fuzzing/src/riscv.rs:94-95 | the corrected reset range holds exactly the in-memory bytes of the block |
| MmuSpec.ResetRangeAsWrittenMissesBlock | fuzzing/src/riscv.rs:94-95 | the range as written is one byte long and never holds the block's first byte |
| MmuSpec.MarkAsWrittenMissesSecondBlock | fuzzing/src/riscv.rs:129-140 | as written, a two-byte write at 4095 records only block 0 of the blocks {0, 1} it touches, and a reset then leaves byte 4096 modified |
| MmuSpec.AsWrittenAllocationsOverlap | fuzzing/src/riscv.rs:170 | as written, two `allocate(1)` calls return the same address, and `allocate(16)` reserves 240 bytes |
| MmuSpec.AsWrittenRefusalMovesCursor | fuzzing/src/riscv.rs:175-179 | as written, a refused allocation still moves the cursor, after which even `allocate(0)` is refused |
| Riscv.SetBit | fuzzing/src/riscv.rs:131-138 | setting bit `block % 64` of word `block / 64` marks that block and no other |
| Riscv.AppendTracks | fuzzing/src/riscv.rs:134-139 | pushing a block whose bit was clear and setting its bit keeps list and bitmap in agreement, with no block listed twice |
| Riscv.ClearWord | fuzzing/src/riscv.rs:98 | zeroing the word of the first listed block leaves set only bits of blocks still to be processed |
| Riscv.Mmu.constructor | fuzzing/src/riscv.rs:71-79 | zeroed memory, no permissions, nothing dirty, cursor at 0x10000 |
| Riscv.Mmu.Fork | fuzzing/src/riscv.rs:80-89 | fresh arrays equal to the parent's memory and permissions, nothing dirty, same cursor, parent unchanged |
| Riscv.Mmu.Reset | fuzzing/src/riscv.rs:91-107 | corrected (see Findings): each dirty block's memory and permissions are copied from the other MMU, nothing else changes, and the dirty list ends empty |
| Riscv.Mmu.WriteFrom | fuzzing/src/riscv.rs:108-151 | the new memory and permissions are those of `MmuSpec.Write`; the touched blocks are added to the dirty set with list and bitmap in agreement; on failure nothing changes |
| Riscv.Mmu.MarkDirty | fuzzing/src/riscv.rs:126-140 | corrected (see Findings): the dirty set grows by exactly the blocks `start..=end`, and the old list is kept as a prefix |
| Riscv.Mmu.ReadInto | fuzzing/src/riscv.rs:152-165 | the buffer receives exactly what `MmuSpec.Read` yields, or is left alone on refusal |
| Riscv.Mmu.Allocate | fuzzing/src/riscv.rs:169-183 | corrected (see Findings): result and cursor are those of `MmuSpec.Allocate`; on success `[base, base+size)` becomes WRITE and RAW, and on refusal the permissions are unchanged |
| Riscv.Mmu.SetPermissions | fuzzing/src/riscv.rs:184-190 | the permissions become those of `MmuSpec.SetPermissions`, or stay unchanged on failure |
| Riscv.AllocateThenWriteThenRead | fuzzing/src/riscv.rs:29-39 | allocating 4096 bytes and writing "asdf" succeed, and reading 32 bytes is refused |
| Riscv.ForkWriteReset | fuzzing/src/riscv.rs:4-28 | "asdf" reads back; a fork that overwrites it leaves the parent's bytes alone; after reset the fork reads "asdf" again |
| RoguelikeMap.RectNew | roguelike/src/map.rs:22-29 | `x1 == x`, `y1 == y`, `x2 == x + w`, `y2 == y + h` |
| RoguelikeMap.IntersectSymmetric | roguelike/src/map.rs:31-33 | `intersect` is symmetric |
| RoguelikeMap.IntersectIffSharedPoint | roguelike/src/map.rs:31-33 | two well-formed rectangles intersect iff they share a point, borders included |
| RoguelikeMap.TouchingIntersect | roguelike/src/map.rs:31-33 | rectangles that only touch along an edge intersect |
| RoguelikeMap.HalfTowardZero | roguelike/src/map.rs:36 | `i32` division by two truncates toward zero |
| RoguelikeMap.CenterInside | roguelike/src/map.rs:35-37 | the center of a well-formed rectangle lies inside it, including rectangles with negative corners |
| RoguelikeMap.XyIdxRoundTrip | roguelike/src/map.rs:53-55 | on the 80×50 grid `xy_idx` is below 4000, and `% 80` and `/ 80` recover x and y |
| RoguelikeMap.XyIdxInjective | roguelike/src/map.rs:53-55 | distinct grid cells have distinct indices |
| RoguelikeMap.HorizontalTunnelCarves | roguelike/src/map.rs:66-73 | a horizontal tunnel only adds floor, and every cell of the segment becomes floor |
| RoguelikeMap.VerticalTunnelCarves | roguelike/src/map.rs:75-82 | a vertical tunnel only adds floor, and every cell of the segment becomes floor |
| RoguelikeMap.ConnectedGrows | roguelike/src/map.rs:195-201 | an L-shaped floor path between two points survives any later carving |
| RoguelikeMap.CorridorAsWrittenMissesRoom | roguelike/src/map.rs:195-201 | as written, both corridor legs start at the previous room's center, so between rooms (5,15,5,15) and (35,45,25,35) no corridor cell enters the new room |
| RoguelikeMap.PlaceableCenter | roguelike/src/map.rs:178-182 | a room drawn within the grid has its center at least one cell from the border |
| RoguelikeMap.DrawnRoom | roguelike/src/map.rs:178-182 | `Rect::new(roll - 1, roll - 1, w, h)` with dice in range is well formed and inside the grid |
| RoguelikeMap.CarvedGrows | roguelike/src/map.rs:189-205 | carved rooms and corridors stay carved when more floor is added |
| RoguelikeMap.KeepsPlan | roguelike/src/map.rs:183-205 | adding a non-intersecting, carved and connected room keeps the room list disjoint and carved |
| RoguelikeMap.Map.constructor | roguelike/src/map.rs:161-170 | all walls, nothing blocked, no contents, no rooms |
| RoguelikeMap.Map.ApplyRoomToMap | roguelike/src/map.rs:57-64 | exactly the interior cells `x1 < x <= x2`, `y1 < y <= y2` become floor |
| RoguelikeMap.Map.ApplyHorizontalTunnel | roguelike/src/map.rs:66-73 | exactly the in-grid indices of the row segment, index 0 excluded, become floor |
| RoguelikeMap.Map.ApplyVerticalTunnel | roguelike/src/map.rs:75-82 | exactly the in-grid indices of the column segment, index 0 excluded, become floor |
| RoguelikeMap.Map.PopulateBlocked | roguelike/src/map.rs:92-96 | a tile is blocked iff it is a wall |
| RoguelikeMap.Map.ExitValidAfterPopulate | roguelike/src/map.rs:84-96 | once blocked is populated, a cell is a valid exit iff it is inside the border and is floor |
| RoguelikeMap.Map.ClearContentIndex | roguelike/src/map.rs:98-102 | every tile's content list is empty |
| RoguelikeMap.Map.ExitAt | roguelike/src/map.rs:124-149 | each neighbour check yields at most one exit, and only the valid neighbour in that direction |
| RoguelikeMap.Map.ExitsAreNeighbours | roguelike/src/map.rs:117-151 | every exit listed is a valid neighbour in one of the directions checked |
| RoguelikeMap.Map.CardinalsBeforeDiagonals | roguelike/src/map.rs:123-149 | the exits are the cardinal ones followed by the diagonal ones, at most eight |
| RoguelikeMap.Map.ValidNeighbourListed | roguelike/src/map.rs:123-149 | the valid neighbour through any of the checked offsets is listed |
| RoguelikeMap.Map.ExitsExactly | roguelike/src/map.rs:117-151 | an index is listed iff it is a valid neighbour through one of the eight offsets |
| RoguelikeMap.Map.GetAvailableExits | roguelike/src/map.rs:117-151 | the exits pushed are exactly those of the eight checks in the source's order |
| RoguelikeMap.Map.PlaceRoom | roguelike/src/map.rs:183-205 | the room is accepted iff it intersects no earlier room; an accepted room is carved, joined to the previous room's center by the corrected corridor (see Findings) and appended; a rejected one changes nothing |
| RoguelikeMap.Map.Corridor | roguelike/src/map.rs:195-201 | the corrected corridor joins the two centers by an L-shaped floor path and only adds floor |
| RoguelikeMap.FirstDrawKept | roguelike/src/map.rs:183-204 | the first drawn room is always kept |
| RoguelikeMap.PlaceDraw | roguelike/src/map.rs:178-205 | one round keeps the rooms equal to those kept from the draws so far, disjoint, inside the grid and carved |
| RoguelikeMap.RandMapRoomsAndCorridors | roguelike/src/map.rs:160-208 | the rooms are exactly the drawn rooms that intersect no earlier kept room, in draw order: at most 30, all inside the grid and pairwise non-intersecting, each carved and joined to the previous one |
| Sorting.SwapKeepsItems | src/main.rs:5 | a swap keeps the multiset of items |
| Sorting.SwapIsStable | src/main.rs:4-5 | swapping neighbours with different keys keeps the order of the items of each key |
| Sorting.BubblingStep | src/main.rs:3-6 | one inner step keeps the largest item seen so far at position j + 1 |
| Sorting.BubblingDone | src/main.rs:3-7 | after an inner pass the last i + 1 items are sorted and no smaller than the rest |
| Sorting.SortedStepUnchanged | src/main.rs:4 | on a sorted sequence a step swaps nothing |
| Sorting.BubblePass | src/main.rs:3-7 | one inner pass places one more item, keeps a stable permutation, and leaves sorted input alone |
| Sorting.BubbleSort | src/main.rs:1-9 | sorted by key, a stable permutation of the input, and an already sorted slice is unchanged |
| RustStr.Split | src/advent.rs:113 | `split` gives at least one piece and no piece holds the separator |
| RustStr.SplitJoin | src/advent.rs:113 | splitting a joined list of pieces that hold no separator gives the pieces back |
| RustStr.JoinSplit | src/advent.rs:113 | joining the pieces of a split with the separator gives the string back |
| RustStr.SplitOnOneChar | src/advent.rs:10 | splitting on a one-character string agrees with splitting on that character |
| RustStr.SplitEmpty | src/advent.rs:135 | `split("")` gives an empty piece, each character on its own, and a final empty piece |
| RustStr.TrimIsInnerSlice | src/advent.rs:112 | `trim` gives a slice of the input that neither starts nor ends with whitespace, and everything dropped before and after it is whitespace |
| RustStr.SplitOnJoin | src/advent.rs:5 | splitting on a pattern gives back the pieces it joined, when no match of the pattern starts inside a piece |
| RustStr.ParseDecimal | src/advent.rs:207 | `parse::<u64>` of a number's decimal rendering gives the number back |
| RustSlice.Reverse | src/advent.rs:226 | in place, the array becomes its reversal |
| RustSlice.ReversedTwice | src/advent.rs:226 | reversing twice gives the original |
| RustSlice.SumOfPermutation | src/advent.rs:21-25 | the sum does not depend on the order of the items |
| AdventCalories.TopThreeSum | src/advent.rs:20-25 | after sort and reverse the counts are the same values, largest first, and the total is the sum of the first three (all, when fewer) |
| AdventCalories.OneTwo | src/advent.rs:3-28 | the result is the top-three sum of some descending arrangement of the elves' calorie counts |
| AdventCalories.ElfCountsRoundTrip | src/advent.rs:5-18 | an input written as each elf's 64-bit numbers, one per line, with a blank line between elves, gives one count per elf, the sum of its numbers |
| AdventCalories.ParsedSumSkips | src/advent.rs:13 | a line that does not parse as a number adds nothing to its elf's count |
| AdventCalories.TopThreeIsMaximal | src/advent.rs:20-25 | no three other positions of the descending counts sum to more than the first three |
| AdventCalories.FewElves | src/advent.rs:25 | with three elves or fewer, the result is the sum of all counts |
| AdventRps.MoveScore | src/advent.rs:38-46 | a move scores 1, 2 or 3 |
| AdventRps.MoveScoreInjective | src/advent.rs:38-46 | different moves score differently |
| AdventRps.OutcomeScore | src/advent.rs:56-64 | an outcome scores 0, 3 or 6, with 6 exactly for a win and 0 exactly for a loss |
| AdventRps.ParseMoveCodes | src/advent.rs:66-75 | "A"/"X" are rock, "B"/"Y" paper, "C"/"Z" scissors, and every other string panics |
| AdventRps.DrawIffSameMove | src/advent.rs:77-94 | a draw exactly when both moves are equal |
| AdventRps.WinIffOtherLoses | src/advent.rs:77-94 | the player wins exactly when, with the moves exchanged, the result is a loss |
| AdventRps.OutcomeIsCyclic | src/advent.rs:77-94 | the table agrees with the rule that each move beats the one before it, cyclically |
| AdventRps.RoundScore | src/advent.rs:99-104 | between 1 and 9: the player's (last) move score plus the outcome against the opponent's (first) move |
| AdventRps.RoundScoreDecodes | src/advent.rs:99-104 | two rounds with equal scores have the same player move and the same outcome |
| AdventRps.ComputeRoundScores | src/advent.rs:96-107 | one score per round, each the round's score and between 1 and 9 |
| AdventRps.ParseMoves | src/advent.rs:115-120 | one move per word, each the parse of its word; the parse fails iff some word is not a move |
| AdventRps.TwoOneBounds | src/advent.rs:109-126 | the total lies between one and nine points per line |
| AdventRucksack.AlphabetLetters | src/advent.rs:133 | the alphabet is a to z then A to Z |
| AdventRucksack.Collect | src/advent.rs:134-138 | the keys of the collected map are exactly the keys of the pairs |
| AdventRucksack.CollectLastWins | src/advent.rs:134-138 | the value kept for a key is that of its last pair |
| AdventRucksack.LetterPriorities | src/advent.rs:133-138 | a to z map to 1 to 26, and A to Z to 27 to 52 |
| AdventRucksack.EmptyPriority | src/advent.rs:133-138 | the empty string, produced at both ends of `split("")`, maps to 53 |
| AdventRucksack.PriorityKeys | src/advent.rs:133-138 | the keys are exactly the empty string and the one-letter strings |
| AdventRucksack.PiecesOf | src/advent.rs:148-149 | the set of a string's `split("")` pieces is the empty string plus each of its characters |
| AdventRucksack.SharedIsCommonChars | src/advent.rs:151-152 | the shared non-empty pieces are exactly the characters found in every string |
| AdventRucksack.SharedPriorityMeaning | src/advent.rs:151-156 | the priority is p iff the strings share exactly one character, it is a letter, and p is its priority; so 53 never results |
| AdventRucksack.ChunksConcat | src/advent.rs:176 | `chunks(3)` loses and adds no line |
| AdventRucksack.ThreeOneBounds | src/advent.rs:132-161 | the total lies between 1 and 52 per rucksack |
| AdventRucksack.ChunksShape | src/advent.rs:176 | `chunks(3)` makes (n + 2) / 3 groups of consecutive lines, all threes except a shorter last one |
| AdventRucksack.ThreeTwoMeaning | src/advent.rs:163-198 | `three2` gives a total iff the line count is a multiple of 3 and every group of three has exactly one letter in common |
| AdventRucksack.ThreeTwoBounds | src/advent.rs:163-198 | the total lies between 1 and 52 per group |
| AdventRanges.ParseNumbers | src/advent.rs:205-208 | one number per piece, each the parse of its piece |
| AdventRanges.TransformFormatted | src/advent.rs:201-215 | a line written from ranges of 64-bit numbers parses back to those ranges |
| AdventRanges.FirstContainsSecondIffSubset | src/advent.rs:217-222 | for a non-empty second range, `first_contains_second` holds iff every section of the second is in the first |
| AdventRanges.EitherContainsMeaning | src/advent.rs:224-229 | the result is true iff either range contains the other |
| AdventRanges.IsFullyContained | src/advent.rs:224-229 | with two ranges: whether either contains the other, and the vector is left reversed; any other length panics before anything changes |
| AdventRanges.FourOneBound | src/advent.rs:231-246 | the count is at most the number of lines |
| AdventMarker.CharSetSize | src/advent.rs:266-267 | a window has as many different characters as characters iff they are pairwise distinct |
| AdventMarker.FirstMarkerMeaning | src/advent.rs:260-273 | the marker is the end of the first window of distinct characters, and 0 iff there is none |
| AdventMarker.FindMarker | src/advent.rs:263-272 | the loop with `break` returns the first marker |
| AdventMarker.DetermineMarkerIndex | src/advent.rs:260-273 | as written: the marker for windows of 14, whatever window size is passed |
| AdventMarker.DetermineMarkerIndexIntended | src/advent.rs:260-273 | the marker for windows of the size passed |
| AdventMarker.SixOne | src/advent.rs:248-252 | corrected (see Findings): the first marker for windows of 4 |
| AdventMarker.SixTwo | src/advent.rs:254-258 | the first marker for windows of 14 |
| AdventMarker.AsWrittenSixOneMissesMarker | src/advent.rs:250 | on "abcd" the search as written finds nothing, while the four-character marker is at 4 |
| Bloom.HashBloom | bloom/src/lib.rs:4-10 | the hash panics iff i >= 32, and otherwise is a bit position below m |
| Bloom.Indices | bloom/src/lib.rs:31 | one index per hash function; it panics iff some function's byte index is 32 or more |
| Bloom.SetBitsMonotoneIdempotent | bloom/src/lib.rs:32-37 | setting bits never clears one, and setting the same bits again changes nothing |
| Bloom.NotInMeaning | bloom/src/lib.rs:39-52 | with usable hash functions, `not_in` is true iff some hash index of the element has a clear bit |
| Bloom.NoFalseNegatives | bloom/src/lib.rs:39-52 | once an element's bits are set, `not_in` is false for it whatever is set later |
| Bloom.BloomFilter.constructor | bloom/src/lib.rs:18-29 | requires 0 < k < m; m clear bits and hash functions 0 to k |
| Bloom.BloomFilter.Insert | bloom/src/lib.rs:30-38 | if every hash function is usable, exactly the element's bits are set in addition to those already set; otherwise nothing changes |
| Bloom.BloomFilter.NotIn | bloom/src/lib.rs:39-52 | the answer of the scan: true at the first clear bit, a panic at the first unusable function, otherwise false |
| Bloom.InsertThenNotIn | bloom/src/lib.rs:59-66 | after inserting an element, `not_in` of it is false |

## Left out

- Rust's `Vec<u64>` dirty bitmap is modelled as a sequence of 64-bit words, each a sequence of 64 booleans, reassigned as a whole. The packing into `u64` and the in-place update of the vector are not modelled.
- `Mmu::read` (an empty stub), `Emulator` and the loader, executor and worker pool of the fuzzer are not part of this model.
- Riscv.Mmu.Reset: requires the two MMUs to have the same size. The source indexes the other MMU's memory without checking and would panic on a shorter one.
- Riscv.Mmu.Reset: the corrected range of each block stops at the end of memory. The dirty blocks run to the inclusive end block `(addr + len) / 4096` (fuzzing/src/riscv.rs:128-129), which is the block just past memory when a write ends at the last byte, so an unclamped `block * 4096 .. (block + 1) * 4096` would panic there.
- Riscv.ForkWriteReset: the fork writes zeros rather than "asdf" again, so that the reset has something to undo.
- `i32` overflow in map.rs (`x + w`, `y * 80`) is not modelled: the generator only produces small values.
- `xy_idx` is computed on integers. Where `y * 80 + x` is not negative, it equals the source's wrapped `usize` index; where it is negative, the model's index is negative and the source's is huge, and the tunnel bounds check rejects both. Overflow panics of a debug build are not modelled.
- RoguelikeMap.Map.ApplyRoomToMap: requires the room to lie in the grid; the generator never produces any other room.
- RoguelikeMap.Map.GetAvailableExits: requires `idx < 2^31`, since `idx as i32` would wrap. The `f32` weights of the exits are dropped.
- `revealed_tiles`, `visible_tiles`, `is_opaque`, `draw_map`, `get_pathing_distance` and `dimensions` (rendering, field of view, floating point) are not part of this model.
- RoguelikeMap.RandMapRoomsAndCorridors: the random number generator is replaced by a list of 30 draws, each with a corridor coin even when unused. The contract says which tiles are certainly floor. It does not say that no other tile is.
- `u64` overflow of the sums in `one2`, `two1`, `three1` and `three2` is not modelled.
- File reading at fixed paths is replaced by the file's text as a parameter; `two2` is a `todo!()` and is not modelled.
- AdventCalories.TopThreeSum: `sort` on `Vec<u64>` is modelled by the project's own bubble sort. Any correct sort gives the same sorted vector of numbers.
- AdventRucksack.RucksackPriority: `str::len` counts bytes, and this model counts characters. The two agree on ASCII input; on other input `split_at` may panic in the source.
- AdventRucksack.SharedPriority: which element `intersect.pop()` returns is irrelevant, because the assertion just before it requires exactly one.
- Bloom: SHA3-256 is a parameter, `digest`, returning 32 bytes. `hash_fns` are represented by the byte index each closure captures.
- Bloom.BloomFilter.Insert, Bloom.BloomFilter.NotIn: the `panic!` on a missing index is not modelled, because it cannot happen: every index is below m.

## Findings

| source | as written | input that shows it | evidently intended | confidence | as-written member | corrected member |
|---|---|---|---|---|---|---|
| fuzzing/src/riscv.rs:94-95 | `reset` restores `block + 4096 .. (block + 1) + 4096`, a single byte | any dirty block, e.g. block 0: only byte 4096 is restored | restore `block * 4096 .. (block + 1) * 4096`, stopping at the end of memory (the end block of a write that reaches the last byte lies past memory) | high, not executed | MmuSpec.ResetRangeAsWrittenMissesBlock | MmuSpec.ResetRangeCoversBlock |
| fuzzing/src/riscv.rs:131-132 | the bitmap word and bit come from `start` for every block of the loop | a write of two bytes at 4095 records only block 0 | take them from `block` | high, not executed | MmuSpec.MarkAsWrittenMissesSecondBlock | Riscv.Mmu.MarkDirty |
| fuzzing/src/riscv.rs:170 | `(size * 0xf) & !0xf` | `allocate(1)` twice returns the same address | `(size + 0xf) & !0xf` | high, not executed | MmuSpec.AsWrittenAllocationsOverlap | MmuSpec.AllocationsDisjoint |
| fuzzing/src/riscv.rs:175-179 | the cursor is stored before the final bound check | `allocate(3)` with 0x10 bytes left is refused but moves the cursor, and then `allocate(0)` is refused | store the cursor only on success | medium, not executed | MmuSpec.AsWrittenRefusalMovesCursor | Riscv.Mmu.Allocate |
| roguelike/src/map.rs:196-200 | both arms draw the vertical leg at `prev_x` and the horizontal leg at `prev_y` | rooms (5,15,5,15) then (35,45,25,35): no corridor cell reaches the second room | draw the second leg from the corner, at `new_x` or `new_y` | high, not executed | RoguelikeMap.CorridorAsWrittenMissesRoom | RoguelikeMap.Map.Corridor |
| src/advent.rs:263-268 | `determine_marker_index` ignores `window_size` and always uses 14 | `six1` on "abcd" returns 0 instead of 4 | use `window_size` | high, not executed | AdventMarker.AsWrittenSixOneMissesMarker | AdventMarker.DetermineMarkerIndexIntended |
