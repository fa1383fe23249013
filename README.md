# babl core in Dafny

A model of the logic at the core of the babl text editor, with proofs about it. The
logic comes in four parts.

- **The line tree** (`src/core/line_tree.c`) is an index with one node per `'\n'`.
  - It is an unbalanced binary search tree over heap nodes with `l`/`r`/`p` links.
  - A node's `byte_offset` is relative: its absolute offset adds the offset of every
    ancestor where the path from the root turned right.
  - `total_lines` is kept on the way in as a rank: one more than the size of the left
    subtree.
- **The text store** (`src/text_buffer_ascii.c`) is a growable byte array.
  - Insert and delete shift the tail of the array in place.
  - Linear scans answer where a line starts and how long it is.
- **The cursor** (`src/main.c`) is a `(col, row, last_col)` record moved right, left, up
  and down against the text store's line queries. Next to it is the scan that loads the
  line tree from a file's bytes.
- **Rectangles and bitmaps** (`src/core/bitmap.c`) covers two things.
  - s32 rectangle arithmetic.
  - The clipped row-by-row copy of one 8-bit bitmap into another, and the fill of a
    32-bit bitmap.

The model has these modules:

- `LineTreeSpec` (line_tree_spec.dfy) is the line tree as a value that every operation
  works on.
  - `Tree` is a datatype with the offsets and counts of the C nodes.
  - Each operation is a function: `Insert`, `Shift` (the two `propagate_*_at_byte`),
    `Delete`, `SuccessorPath`, and `InsertAsWritten` (the insert with its u32
    truncation).
  - The lemmas say what the operations mean for the in-order list of absolute offsets,
    `Offsets`, and for the invariant `Ordered`. `Ordered` holds when the offsets
    increase in order and every `total_lines` is a rank.
- `LineIndex` (line_index.dfy) is the pointer structure.
  - Class `LineTree` keeps the nodes in an arena: sequences `left`, `right`, `parent`,
    `byteOffset` and `totalLines` indexed by node, with -1 for null.
  - A ghost `shape` records which node sits where. `Abs()` reads the value tree off the
    arena.
  - Every method of the source is a loop or a rewiring on these fields, and is proved to
    produce the `LineTreeSpec` function of the old `Abs()`.
- `LineTreeArena` (line_tree_arena.dfy) holds the lemmas that tie arena updates to
  value-tree updates.
- `Text` (text.dfy) holds what the text store's scans read off a byte sequence: the
  positions of the line breaks, where line `k` starts, and how long it is.
- `TextStore` (text_store.dfy) is class `TextBuffer`: an `array<bv8>` with `size` and
  `capacity`. Its methods are proved against the functions of `Text` applied to the
  first `size` bytes.
- `Editor` (editor.dfy) holds the cursor.
  - `Pos` and the pure functions `Right`, `Left`, `Up` and `Down` state what each move
    does, and the lemmas prove how the moves relate.
  - Class `Cursor` holds the three u32 fields. Its methods are proved to do what those
    functions say.
  - It also holds the load scan, which feeds a `LineIndex.LineTree`.
- `Bitmap` (bitmap.dfy) holds s32 rectangles and their operations,
  `BitmapU8.BlitU8` and `BitmapU32.ClearU32`.
- `SeqUtil` (seq_util.dfy) holds orders and shifts on sequences of offsets, and the u32
  arithmetic.

Unsigned integers are `nat`. The wrap is written out for these u32 values:

- the u32 `last_byte_offset` of the insert;
- the u32 column and row of the cursor;
- the u32 line size of `text_buffer_line`;
- the u32 offset counter of the load scan;
- the u32 `width - 1` and `height - 1` that `get_rect` stores in s32.

The u64 byte offsets of the line tree and the u64 sizes of the text store are not
wrapped; "## Left out" names the members this affects. An s32 sum in `rect_translate`
that overflows is undefined in C; the model wraps it in two's complement, as
"## Left out" says.

A `char` is a signed byte: `text_buffer_get` sign-extends bytes from 128 up.

## Model

| member | source | states |
|---|---|---|
| LineTreeSpec.InsertOffsets | src/core/line_tree.c:67-105 | inserting at absolute offset a adds a node at a, moves every node at or after a one byte on, and leaves the earlier nodes where they were |
| LineTreeSpec.InsertKeepsRank | src/core/line_tree.c:8-16 | the new leaf has total_lines 1 and each ancestor where the descent went left gains one line, so total_lines stays 1 + the left subtree's size, and the tree has one node more |
| LineTreeSpec.InsertKeepsOrdered | src/core/line_tree.c:67-105 | insert keeps a sound index sound: offsets increasing in order, ranks right, no negative field |
| LineTreeSpec.InsertPastAll | src/core/line_tree.c:67-105 | inserting past every existing line break appends it to the in-order offsets |
| LineTreeSpec.InsertIsBump | src/core/line_tree.c:89-102 | insert is a new leaf with the final remaining offset at the slot the descent reaches, then +1 byte and +1 line on every ancestor holding it in its left subtree |
| LineTreeSpec.LastTurn | src/core/line_tree.c:96-100 | the side the new leaf is put on is the one the descent took at the last node, decided by the remaining offset recorded there |
| LineTreeSpec.InsertAsWrittenAgrees | src/core/line_tree.c:72 | with offsets below 2^32 the u32 last_byte_offset is harmless: the insert as written is the intended insert |
| LineTreeSpec.InsertTruncationMisplaces | src/core/line_tree.c:72 | at 2^32 + 1 it is not: the new node goes on the wrong side and the offsets come out of order |
| LineTreeSpec.ShiftOffsets | src/core/line_tree.c:159-212 | a shift by d moves exactly the line breaks at or after the byte by d and leaves the earlier ones |
| LineTreeSpec.ShiftKeepsSkeleton | src/core/line_tree.c:184-212 | a shift never changes the shape, the size or any total_lines |
| LineTreeSpec.ShiftRoundTrip | src/core/line_tree.c:184-212 | incrementing and then decrementing at the same byte by the same value restores the tree |
| LineTreeSpec.ShiftDownSafe | src/core/line_tree.c:199-212 | a decrement by v drives no u64 offset below zero when no line break lies in the v bytes from the argument |
| LineTreeSpec.ShiftKeepsOrdered | src/core/line_tree.c:184-212 | a shift keeps a sound index sound, provided a decrement does not run into a line break |
| LineTreeSpec.ShiftIsBump | src/core/line_tree.c:159-197 | a shift adds the value to the byte_offset of each node where the descent turns left, the last one included |
| LineTreeSpec.FoundNode | src/core/line_tree.c:107-129 | what find_node_at_offset reports is the last node the descent visits, has no left child, and sits at the requested absolute offset |
| LineTreeSpec.FindMissesNodeWithLeftChild | src/core/line_tree.c:107-129 | after inserting 5 and then 3, the break at 6 exists but is not found, so deleting it does nothing |
| LineTreeSpec.DeleteUnfound | src/core/line_tree.c:131-135 | when no node is found, delete changes nothing |
| LineTreeSpec.DeleteFoundSize | src/core/line_tree.c:131-157 | when a node is found, delete removes exactly one node |
| LineTreeSpec.DeleteIsReplace | src/core/line_tree.c:137-141 | delete puts the found node's right subtree in its place, its root offset grown by the removed offset minus one |
| LineTreeSpec.SpliceInTwoSteps | src/core/line_tree.c:138-140 | the transplant followed by the offset update on the right child, in u64, is that splice |
| LineTreeSpec.InsertThenFound | src/core/line_tree.c:67-129 | the node just inserted is always the one find_node_at_offset reports |
| LineTreeSpec.InsertThenDelete | src/core/line_tree.c:67-157 | deleting what was just inserted restores the shape, but the ancestors keep the byte and the line the insert added |
| LineTreeSpec.InsertThenDeleteDiffers | src/core/line_tree.c:131-157 | so insert then delete is not an identity: a break at 5, insert and delete 3, and it is reported at 6 |
| LineTreeSpec.BumpNode | src/core/line_tree.c:8-16 | the upward walk changes a node on the path exactly when the path turns left there, and changes it by the given amounts |
| LineTreeSpec.LeftSpineFirst | src/core/line_tree.c:28-33 | the end of the left spine has no left child and holds the first offset of the subtree |
| LineTreeSpec.RightSpineLast | src/core/line_tree.c:35-40 | the end of the right spine has no right child and holds the last offset of the subtree |
| LineTreeSpec.SuccessorIndex | src/core/line_tree.c:42-52 | the successor's position in order is one past the node's, and there is none exactly when the node is the last in order |
| LineTreeSpec.SuccessorNext | src/core/line_tree.c:42-52 | with increasing offsets the successor holds the least offset above the node's, and none is returned exactly for the node with the largest offset |
| LineIndex.LineTree.constructor | src/core/line_tree.h:18-21 | a tree with a null root stands for the empty tree |
| LineIndex.LineTree.Abs | src/core/line_tree.h:9-16 | the nodes reachable from the root form a tree whose fields are unsigned |
| LineIndex.LineTree.PropagateIncrement | src/core/line_tree.c:8-16 | walking up from a node adds bytes and lines to every ancestor holding it in its left subtree, without the u64 wrap; links unchanged |
| LineIndex.LineTree.PropagateDecrement | src/core/line_tree.c:18-26 | the same walk subtracting, defined only where no unsigned field goes below zero |
| LineIndex.LineTree.Minimum | src/core/line_tree.c:28-33 | follows left links from x to the node at the end of the left spine, which has no left child |
| LineIndex.LineTree.Maximum | src/core/line_tree.c:35-40 | follows right links from x to the node at the end of the right spine, which has no right child |
| LineIndex.LineTree.Successor | src/core/line_tree.c:42-52 | the minimum of the right subtree, else the nearest ancestor holding x in its left subtree, else null; SuccessorNext says what that node is |
| LineIndex.LineTree.Transplant | src/core/line_tree.c:54-65 | only u's slot in its parent (or the root) and v's parent link change |
| LineIndex.LineTree.InsertDescent | src/core/line_tree.c:72-87 | the descent ends at the last node on the search path, with the remaining offset reached and its u32 copy at that node |
| LineIndex.LineTree.Attach | src/core/line_tree.c:89-100 | the new leaf takes the slot chosen, as the root or as the chosen child of the parent |
| LineIndex.LineTree.Insert | src/core/line_tree.c:67-105 | the pointer tree afterwards is the insert as written; below 2^32 it is the intended insert (offsets not wrapped at 2^64) |
| LineIndex.LineTree.FindNodeAtOffset | src/core/line_tree.c:107-129 | returns a node exactly when the last node visited matches; the node is that one and has no left child |
| LineIndex.LineTree.Delete | src/core/line_tree.c:131-157 | reports whether a node was found and leaves the tree as LineTreeSpec.Delete says |
| LineIndex.LineTree.Unlink | src/core/line_tree.c:137-138 | transplanting a node without a left child puts its right subtree in its place; offsets untouched |
| LineIndex.LineTree.SetOffset | src/core/line_tree.c:139-140 | storing one node's offset changes that node of the value tree and nothing else |
| LineIndex.LineTree.FindOffsetParentNode | src/core/line_tree.c:159-182 | the last node the descent visits (null on an empty tree) and the remaining offset recorded there |
| LineIndex.LineTree.IncrementAtByte | src/core/line_tree.c:184-197 | the tree afterwards is the shift up by the value at the byte, offsets not wrapped at 2^64; on an empty tree nothing changes |
| LineIndex.LineTree.DecrementAtByte | src/core/line_tree.c:199-212 | the tree afterwards is the shift down by the value, given that no u64 offset goes below zero |
| Text.CodeOf | src/text_buffer_ascii.c:76-79 | a stored byte read back as u32 sign-extends; it is '\n' exactly when the byte is |
| Text.CodeOfByteOf | src/text_buffer_ascii.c:56 | a code below 128 stored as a char reads back as itself |
| Text.BreaksExact | src/text_buffer_ascii.c:82-104 | the break list holds exactly the positions of the '\n' bytes, in increasing order |
| Text.LineStart | src/text_buffer_ascii.c:82-104 | line 0 starts at 0; line k > 0 starts one byte after the k-th '\n', possibly at the end; none when there are fewer breaks |
| Text.LineLength | src/text_buffer_ascii.c:111-117 | the bytes from k up to, not including, the next '\n' or the end |
| Text.LineEnd | src/text_buffer_ascii.c:106-120 | line r ends at the r-th break, the last line at the end of the text |
| Text.LineOf | src/text_buffer_ascii.c:106-120 | line k exists exactly when there are at least k breaks; it starts after break k - 1 (line 0 at 0) and its length, modulo 2^32, runs to break k or the end of the text |
| Text.InsertThenRemove | src/text_buffer_ascii.c:41-74 | deleting at the index just inserted at gives the text back |
| Text.GetAfterInsert | src/text_buffer_ascii.c:41-79 | reading right after inserting a code below 128 gives that code |
| TextStore.TextBuffer.constructor | src/text_buffer_ascii.c:14-20 | empty, with capacity 4096 |
| TextStore.TextBuffer.Grow | src/text_buffer_ascii.c:29-35 | twice the capacity, the text kept |
| TextStore.TextBuffer.Size | src/text_buffer_ascii.c:37-39 | the length of the text |
| TextStore.TextBuffer.Insert | src/text_buffer_ascii.c:41-60 | past the end: false and unchanged; else the byte is in at index, the rest moved up one, and size <= capacity |
| TextStore.TextBuffer.OpenGap | src/text_buffer_ascii.c:52-55 | the memmove moves the bytes from index on up one place and keeps the ones before |
| TextStore.TextBuffer.Delete | src/text_buffer_ascii.c:62-74 | empty or past the last byte: false and unchanged; else the byte at index is gone |
| TextStore.TextBuffer.Get | src/text_buffer_ascii.c:76-79 | the byte at index as its u32 code |
| TextStore.TextBuffer.LineIndex | src/text_buffer_ascii.c:82-104 | found exactly when line `line` exists, and then its start |
| TextStore.TextBuffer.Line | src/text_buffer_ascii.c:106-120 | found exactly when the line exists, and then its start and its length as the u32 counter holds it |
| Editor.Index | src/main.c:20-26 | the cursor's index lies between its line's start and the end of the text |
| Editor.RowsOrdered | src/main.c:20-26 | a cursor on a lower row has a smaller index |
| Editor.IndexDetermines | src/main.c:20-26 | equal indices mean equal row and column |
| Editor.RightStep | src/main.c:28-46 | moves exactly when the index is before the end, then one byte on and still on the text, last_col = col |
| Editor.LeftStep | src/main.c:48-70 | moves exactly when the index is past 0, then one byte back and still on the text, last_col = col |
| Editor.LeftOverBreak | src/main.c:53-62 | from column 0 the cursor goes to the end of the previous row |
| Editor.RightThenLeft | src/main.c:28-70 | a successful move right then left returns to the same row and column |
| Editor.LeftThenRight | src/main.c:28-70 | a successful move left then right returns to the same row and column |
| Editor.Up | src/main.c:72-87 | false and unchanged unless the row is above 0; then on the text |
| Editor.Down | src/main.c:89-100 | false and unchanged unless a next row exists; then on the text |
| Editor.UpThenDown | src/main.c:72-100 | up then down returns to the row at min(last_col, row length) |
| Editor.DownThenUp | src/main.c:72-100 | for a row below 2^32 - 1, down then up returns to the row at min(last_col, row length) |
| Editor.DownThenUpWraps | src/main.c:72-100 | at row 2^32 - 1 the u32 row + 1 wraps to row 0: the move down succeeds and the move up after it fails |
| Editor.Cursor.constructor | src/main.c:13-18 | the cursor starts at (0, 0, 0) |
| Editor.Cursor.GetIndex | src/main.c:20-26 | line start plus col, for a cursor on the text |
| Editor.Cursor.MoveRight | src/main.c:28-46 | the new cursor and the result are Editor.Right's |
| Editor.Cursor.MoveLeft | src/main.c:48-70 | the new cursor and the result are Editor.Left's |
| Editor.Cursor.MoveUp | src/main.c:72-87 | the new cursor and the result are Editor.Up's |
| Editor.Cursor.MoveDown | src/main.c:89-100 | the new cursor and the result are Editor.Down's |
| Editor.ScanEnd | src/main.c:106-112 | the scan stops at the first NUL byte or at the end of the data |
| Editor.LoadLineTree | src/main.c:102-114 | one line_tree_insert per '\n' before the first NUL, at its offset modulo 2^32, in ascending order |
| Editor.LoadFromEmpty | src/main.c:102-114 | loading into an empty tree gives a sound index whose offsets are the file's line breaks |
| Editor.InsertEachSorted | src/main.c:106-112 | inserting increasing offsets below 2^32 into an empty tree gives a sound index of exactly those offsets |
| Bitmap.Wrap | src/core/bitmap.c:24-31 | an s32 sum that does not overflow is exact; an overflowing one, undefined in C, is taken in two's complement |
| Bitmap.WrapCongruent | src/core/bitmap.c:24-31 | the wrapped value is congruent modulo 2^32 to the exact sum |
| Bitmap.EdgeIsWrap | src/core/bitmap.c:37-45 | width - 1 is computed in u32 and stored in s32 |
| Bitmap.IntersectionPixels | src/core/bitmap.c:6-13 | the intersection holds exactly the pixels in both rectangles |
| Bitmap.IntersectionCommutes | src/core/bitmap.c:6-13 | intersection is commutative, and a rectangle intersected with itself is itself |
| Bitmap.UnionEncloses | src/core/bitmap.c:15-22 | the union encloses both rectangles and is the smallest rectangle that does |
| Bitmap.WrapBack | src/core/bitmap.c:24-31 | adding x and then -x in s32 gives the value back (of the C only where neither sum overflows) |
| Bitmap.TranslateBack | src/core/bitmap.c:24-31 | translating by (-x, -y) undoes a translation by (x, y) (of the C only where no sum overflows) |
| Bitmap.TranslateKeepsSize | src/core/bitmap.c:24-31 | without overflow, translation keeps right - left and bottom - top |
| Bitmap.InvalidIsEmpty | src/core/bitmap.c:33-35 | a rectangle is invalid exactly when it holds no pixel |
| Bitmap.GetRectCovers | src/core/bitmap.c:37-45 | for sides from 1 to 2^31 it is (0, 0, width - 1, height - 1); with a zero side it is invalid |
| Bitmap.Offset | src/core/bitmap.c:75-76 | a pixel's byte in a buffer of height rows of pitch bytes is in range |
| Bitmap.Clip | src/core/bitmap.c:63-69 | a valid clip lies inside the destination and, moved back by dr's corner, inside the source |
| Bitmap.BitmapU8.constructor | src/core/bitmap.h:33-37 | the header fields of an 8-bit bitmap |
| Bitmap.CopyBytes | src/core/bitmap.c:79 | memcpy of n bytes, every other byte unchanged |
| Bitmap.CopyRow | src/core/bitmap.c:71-83 | one turn of the blit loop copies the clip's row y from the source row y - dr.top |
| Bitmap.BlitU8 | src/core/bitmap.c:56-85 | invalid clip: dst unchanged; else each clip pixel (x, y) is src pixel (x - dr.left, y - dr.top), all other dst bytes unchanged, every access in bounds |
| Bitmap.BitmapU32.constructor | src/core/bitmap.h:24-28 | the header fields of a 32-bit bitmap |
| Bitmap.ReplicateLanes | src/core/bitmap.c:52 | each of the four bytes of a pixel written by memset is the byte |
| Bitmap.FillPixels | src/core/bitmap.c:52 | memset of a row: bytes / 4 pixels replicated, the others unchanged |
| Bitmap.ClearU32 | src/core/bitmap.c:48-54 | all width x height pixels replicated, the rest of the buffer unchanged |

## Left out

- Memory: `malloc`/`realloc` failure, `free`, and the node `line_tree_delete` never
  frees. Arena slots stand in for heap nodes: a new node is a fresh index.
- `os_read_file` and the other I/O of `load_line_tree_from_file`. The scan takes the
  file's bytes as a sequence; the NUL `os_read_file` puts after them is the caller's to
  supply. `src/os_backend_sdl2.c` is not part of this model.
- Windowing, event polling, fonts, the renderer and `main`/`main_`. That includes the
  uninitialised `LineTree` and `Cursor` there: the model starts both at zero.
- `line_tree_node_height` and the line tree's draw functions (floating point, `sprintf`,
  rendering).
- `text_buffer_destroy` (only frees memory).
- LineIndex.LineTree.Delete: it is shown to leave the tree as the code does. No
  invariant is claimed after it: the code restores neither the counts nor the ancestors'
  offsets.
- LineTreeSpec: `total_lines` is u32 and `propagate_increment` adds to it in u32. The
  model takes it as unbounded, since wrapping would need 2^32 line breaks.
- LineIndex.LineTree.PropagateIncrement: `byte_offset += bytes` is u64 and wraps modulo
  2^64 in C; the model adds without reduction. For offsets that reach 2^64 the model's
  tree is not the C's (the C can wrap an ancestor's offset, the model cannot).
- LineIndex.LineTree.IncrementAtByte: goes through PropagateIncrement, so it does not
  model the u64 wrap of the shifted offsets either.
- LineIndex.LineTree.Insert: the +1 byte it adds to the ancestors goes through
  PropagateIncrement, so `Insert(2^64 - 1)` then `Insert(0)` does not wrap the root to 0
  as the C does.
- Bitmap.Wrap: where `rect_translate`'s s32 sum overflows, C leaves the result undefined;
  the model picks two's-complement wrap.
- Bitmap.WrapBack: holds of the C only when neither s32 sum overflows; past that it is a
  fact about the wrap the model picks.
- Bitmap.TranslateBack: holds of the C only when no s32 sum overflows, as WrapBack.
- TextStore.TextBuffer.Grow: the doubled capacity is not reduced modulo 2^64, since that
  needs more than 2^63 bytes.
- TextStore.TextBuffer.Insert: `size + 1` is not reduced modulo 2^64, for the same
  reason.
- Editor.RightStep: assumes a text shorter than 2^32 bytes, so that line lengths fit the
  u32 column.
- Editor.LeftStep: assumes a text shorter than 2^32 bytes, as RightStep does.
- Editor.RightThenLeft: assumes a text shorter than 2^32 bytes, as RightStep does.
- Editor.LeftThenRight: assumes a text shorter than 2^32 bytes, as RightStep does.
- Editor.DownThenUp: holds for rows below 2^32 - 1 only. At that row `row + 1` wraps to 0
  in u32, so down succeeds and up then fails; DownThenUpWraps shows it.
- Editor.LoadFromEmpty: needs the scanned part to be at most 2^32 bytes, because the
  scan's offset counter is u32.
- Bitmap.BlitU8:
  - It requires that translating the source rectangle to dr's corner does not overflow
    s32, because C leaves signed overflow undefined.
  - It requires distinct source and destination buffers, as `memcpy` does for the rows
    it copies.
  - It requires a bitmap's `height * pitch` to stay below 2^31, so that the row offsets
    computed in s32 are exact.
- Bitmap.ClearU32: requires `width * 4` and `height * width` to fit the u32 values the
  code computes them in.

## Findings

| source | as written | input that shows it | evidently intended | confidence | as-written member | corrected member |
|---|---|---|---|---|---|---|
| src/core/line_tree.c:72 | `last_byte_offset` is u32 while the remaining offset it copies is u64, so the side the new node is attached on is decided by the offset truncated to 32 bits | one line break at byte 5, then `line_tree_insert` at 2^32 + 1: the node goes left of 5, the node at 5 is moved to 6, and the offsets come out as 2^32 - 4, 6 | `last_byte_offset` as wide as the offsets, so the node is attached on the side the descent took | not executed | LineTreeSpec.InsertTruncationMisplaces | LineTreeSpec.InsertKeepsOrdered |
