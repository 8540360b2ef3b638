# markdown_visualizer: a Dafny model of the text layout core

markdown_visualizer shows a Markdown file in a Raylib window. md4c parses the
file. The parser callbacks record every enter, leave and text event in a linked
queue. A recursive walk turns the node tree into Clay layout declarations. The
Clay renderer then draws them with Raylib.

This project models the parts of that program that decide what ends up on the
screen, and proves what they promise:

- **`src/render.c`**:
  - the *textline packer*: `textline_init`, `textline_flush` and the recursive
    `textline_push`, which wraps text at spaces or cuts it hard so that no row
    exceeds the character budget;
  - the registry of temporary text buffers, which starts at 256 slots and
    doubles;
  - the image cache, at most 256 entries with distinct paths;
  - the list mode and the ordered-item counter;
  - heading and span styles, the soft break, the budget
    `screen_width / (font_size / 2) - 1`, and the font-size keys;
  - the block/span walk itself (`render_node` … `update_frame`,
    `start_main_loop`, `cleanup_application`).
- **`include/clay/clay_renderer_raylib.c`**:
  - `CountUTF8Chars`;
  - `GetNextUTF8Char` and the decode loop in `Raylib_MeasureText`;
  - the grow-on-demand `temp_render_buffer` of the text command.
- **`src/parser.c`**:
  - the head/tail queue (`create_node`, `insert_node`, `next_node`,
    `free_all_nodes`, and the walk of `print_nodes`);
  - the five md4c callbacks and `parse_markdown`.

Modules, one concept each:

| file | module | what it holds |
|---|---|---|
| `bytes.dfy` | `Bytes` | `char` bytes, C strings as `strcmp` sees them, `sprintf("%d")` digits |
| `utf8.dfy` | `Utf8` | the two UTF-8 helpers and the measure loop as methods proved against `CharCount`, `DecodeAt` and `Codepoints`; RFC 3629 section 3 encoding as the independent partner |
| `renderbuffer.dfy` | `RaylibText` | `temp_render_buffer` as a class over an `array` |
| `md4c.dfy` | `Md4c` | md4c's block, span and text kinds and the node tree of `src/parser.h` |
| `eventqueue.dfy` | `EventQueue` | the node class and the queue class (linked `next` fields, ghost `nodes` footprint) with the callbacks |
| `styles.dfy` | `Styles` | text configs, heading and span style selection, the budget formula, the font-size keys |
| `layout.dfy` | `Layout` | Clay declarations (boxes, text elements, rows, markers, pictures), abstracted |
| `linepacker.dfy` | `LinePacker` | `textline_*` as functions on a `Packer` value, plus their lemmas |
| `temptext.dfy` | `TempText` | the temporary-buffer registry class |
| `images.dfy` | `Images` | the image cache as a function on the cached entries, plus the class over `images[256]` |
| `walk.dfy` | `Walk` | the render walk as functions on a `Frame` value (packer, list mode, counter, cache, exit flag) |
| `walkfacts.dfy` | `WalkFacts` | what the walk guarantees: numbering, counters restored, content kept, headings, images |
| `render.dfy` | `Render` | the globals of `render.c` as the `Renderer` class; its methods are proved to reach the `Walk` and `LinePacker` functions |

The `Renderer` methods use `elements` (an `array` of 256 text elements),
`count`, `charCount`, `available`, `listMode`, `listIndex`, `baseFontSize`, and
the registry and image cache objects, just as the C globals do. Each method's
`ensures` ties its new state to a specification function of the old state:
`Line() == Push(old(Line()), src, style, old(available))`, or
`Reached(Walk.RenderNode(old(State()), n, env))`. The lemmas about those
functions carry the properties. The `Walk` functions describe the walk. The
rows below name the methods and lemmas whose contracts say something.

External effects become parameters:

- `mallocOk`, `nodeOk`, `bufferOk` and `strdupOk` say whether an allocation
  succeeds;
- `files` is the set of paths `LoadTexture` can open;
- `keys` is the keys pressed in one frame;
- `screenWidth` is `GetScreenWidth()`;
- md4c's parse is the sequence of callbacks it makes, together with the
  callbacks' success flags.

## Model

| member | source | states |
|---|---|---|
| Bytes.CString | src/render.c:216-221 | what `strcmp` compares: a NUL-free prefix of the buffer that stops at its first NUL |
| Bytes.CStringOfTerminated | src/render.c:216-217 | a path copied into the buffer and NUL-terminated reads back as exactly that path, whatever follows |
| Bytes.Decimal | src/render.c:879 | `sprintf("%d")` of a non-negative number writes at least one byte, all of them ASCII digits |
| Bytes.DecimalRoundTrip | src/render.c:879 | reading the printed digits back gives the number printed |
| Bytes.DecimalLength | src/render.c:879 | a number in [10^k, 10^(k+1)) prints as k+1 digits |
| Utf8.LeadWidth | include/clay/clay_renderer_raylib.c:88-96 | a lead byte announces 1 to 4 bytes, and 1 exactly for bytes below 0x80 |
| Utf8.CountUtf8Chars | include/clay/clay_renderer_raylib.c:84-100 | the loop's count equals `CharCount`, the number of lead bytes reached by stepping one sequence width at a time |
| Utf8.CharCountBounds | include/clay/clay_renderer_raylib.c:84-100 | the character count is at most the byte length and at least a quarter of it |
| Utf8.CharCountAscii | include/clay/clay_renderer_raylib.c:84-100 | on ASCII text the character count is the byte length |
| Utf8.DecodeAt | include/clay/clay_renderer_raylib.c:109-124 | a decoded value lies in [0, 0x1FFFFF], and an ASCII byte decodes to itself |
| Utf8.GetNextUtf8Char | include/clay/clay_renderer_raylib.c:103-127 | at the end of the text or on a truncated sequence it returns -1 and leaves the index alone; otherwise it advances by the lead's width (1 to 4) and returns the decoded codepoint |
| Utf8.DecodeCodepoints | include/clay/clay_renderer_raylib.c:148-152 | the measure loop, which calls `GetNextUTF8Char` until it returns -1, yields `Codepoints(text)`, every value in range |
| Utf8.CountMatchesDecoding | include/clay/clay_renderer_raylib.c:84-127 | the two helpers agree: the number of codepoints decoded is the character count, less one when the text ends in a truncated sequence |
| Utf8.DecodeEncode | include/clay/clay_renderer_raylib.c:109-124 | decoding the RFC 3629 encoding of any scalar value gives it back, with the lead announcing the encoding's length |
| Utf8.DecodeEncodeAll | include/clay/clay_renderer_raylib.c:148-152 | the measure loop over well-formed UTF-8 yields exactly the encoded codepoints, with no truncated tail |
| Utf8.CountOfEncoding | include/clay/clay_renderer_raylib.c:84-100 | `CountUTF8Chars` of k encoded scalar values is k, the number the decoder yields |
| RaylibText.RequiredLength | include/clay/clay_renderer_raylib.c:224-230 | after a frame the buffer length is at least the old length and has room for every text command's bytes plus a NUL |
| RaylibText.TextRenderBuffer.constructor | include/clay/clay_renderer_raylib.c:199-200 | no buffer and length 0 |
| RaylibText.TextRenderBuffer.PrepareText | include/clay/clay_renderer_raylib.c:224-234 | the buffer is reallocated only when too short, and then to exactly the string's length plus one; it holds the string followed by a NUL, so `DrawTextEx` reads the string itself |
| RaylibText.TextRenderBuffer.Render | include/clay/clay_renderer_raylib.c:209-244 | every NUL-free text command is drawn from a buffer that reads as its contents; the buffer length grows to `RequiredLength` |
| EventQueue.CreateNode | src/parser.c:17-25 | when allocation fails there is no node; otherwise a fresh zeroed node of the kind with no successor |
| EventQueue.Queue.constructor | src/parser.c:10-11 | an empty queue: no head and no tail |
| EventQueue.Queue.InsertNode | src/parser.c:27-37 | a null node changes nothing; otherwise the node becomes the tail and the queue's events gain its event at the end; returns its argument |
| EventQueue.Queue.NextNode | src/parser.c:39-46 | on an empty queue returns null; otherwise drops the head, leaving the rest of the events in order, and returns the new head |
| EventQueue.Queue.FreeAllNodes | src/parser.c:48-58 | every node is released, in order, and head and tail are null |
| EventQueue.Queue.Traverse | src/parser.c:162-183 | following `next` from the head visits the queue's events in insertion order |
| EventQueue.Queue.OnEnterBlock | src/parser.c:64-75 | on success returns 0 and appends one entering block event with the type, detail and userdata; on allocation failure returns -1 and leaves the queue unchanged |
| EventQueue.Queue.OnLeaveBlock | src/parser.c:77-88 | the same for a leaving block event |
| EventQueue.Queue.OnEnterSpan | src/parser.c:90-101 | the same for an entering span event |
| EventQueue.Queue.OnLeaveSpan | src/parser.c:103-114 | the same for a leaving span event |
| EventQueue.Queue.OnText | src/parser.c:116-134 | on success returns 0 and appends a text event holding the first `size` bytes plus a NUL; if either allocation fails returns -1 and leaves the queue unchanged |
| EventQueue.Queue.CopyText | src/parser.c:124-131 | the copy is a fresh buffer of `size + 1` bytes: the text's first `size` bytes, then NUL |
| EventQueue.Recorded | src/parser.c:64-134 | the event a callback records: text callbacks give text events carrying their bytes plus NUL; enter and leave callbacks give events flagged entering or leaving |
| EventQueue.Queue.Dispatch | src/parser.c:143-150 | each md4c callback is routed to its handler and appends `Recorded(c)`; on failure it returns -1 with the queue unchanged |
| EventQueue.Queue.ParseMarkdown | src/parser.c:140-156 | returns -1 when some callback fails (md4c stops at the first failure), else 0; the queue gains the recorded events of every callback before the first failure, in order |
| EventQueue.FifoOrder | src/parser.c:27-58 | parsing into an empty queue and walking it from the head returns every callback's event, in callback order |
| TempText.DoubleUntil | src/render.c:183-187 | doubling reaches at least the need, overshoots by less than a factor of two, and keeps the capacity a doubling of 256 |
| TempText.GrownCapacityIsLeast | src/render.c:178-191 | a capacity that already covers the need is kept; otherwise the new capacity covers the need, is 256 doubled some number of times, and is either 256 or less than twice the need |
| TempText.GrownIsMultiple | src/render.c:183-187 | every grown capacity is a multiple of 256 and at least 256 |
| TempText.Registry.constructor | src/render.c:127-129 | no buffers, count 0, capacity 0 |
| TempText.Registry.EnsureCapacity | src/render.c:178-191 | the stored buffers are unchanged; the capacity becomes `GrownCapacity(old capacity, needed)`, and the array is reallocated only when it was short |
| TempText.Registry.Reallocate | src/render.c:189 | `realloc` gives a fresh array of the new size whose prefix holds the old entries |
| TempText.Registry.Push | src/render.c:193-196 | the buffer is appended after the existing ones, with room made as `ensure_temp_text_capacity(count + 1)` makes it |
| TempText.Registry.FreeAll | src/render.c:198-203 | every registered buffer is released, in order; the count is 0 and the array and its capacity are kept |
| Images.Search | src/render.c:219-224 | the first cached index whose path equals the key, or -1 when none does |
| Images.FindOrLoad | src/render.c:209-259 | a found index lies within the cache, which never exceeds 256 entries; a fatal outcome leaves the cache unchanged |
| Images.CacheHit | src/render.c:219-224 | a path already cached returns its entry and leaves the cache unchanged |
| Images.CacheMiss | src/render.c:226-258 | a new path is appended as the next entry, with its path copy and size, loaded exactly when the file exists |
| Images.FatalCases | src/render.c:211-238 | a path of 512 bytes or more, a 257th image and a failed `strdup` each end in the corresponding exit |
| Images.KeepsPathsDistinct | src/render.c:219-258 | the cache never holds the same path twice |
| Images.SecondLookupHits | src/render.c:219-258 | looking up the same path again returns the same entry and cache, whatever allocation does |
| Images.CleanMissesLastEntry | src/render.c:262-276 | the loop as written never releases the newest entry; a loop to the last index does |
| Images.FullCleanVisitsEveryEntry | src/render.c:262-276 | the corrected loop releases exactly the entries 0 … pointer |
| Images.ImageCache.constructor | src/render.c:141-142 | an empty cache with the pointer at -1 |
| Images.ImageCache.FindOrLoadImage | src/render.c:209-259 | the outcome and the new cache are `FindOrLoad` of the old cache; a fatal outcome leaves the stored entries unchanged |
| Images.ImageCache.CleanImagesArray | src/render.c:262-276 | as written: releases `VisitedByClean`, the entries before the pointer, and resets the pointer to -1 |
| Images.ImageCache.CleanAllImages | src/render.c:262-276 | corrected: releases every entry 0 … pointer and resets the pointer to -1 |
| LinePacker.Init | src/render.c:282-285 | the pending line is emptied with nothing emitted |
| LinePacker.Flush | src/render.c:287-309 | an empty line emits nothing; otherwise the whole pending line is emitted as one row and the line is emptied |
| LinePacker.LastSpace | src/render.c:326-333 | the position just after the last space within the room, or -1 when the room holds no space |
| LinePacker.SkipSpaces | src/render.c:353-356 | the first non-space at or after the start, or the end of the text |
| LinePacker.MakeRoom | src/render.c:317-319 | a full line (256 elements) is flushed first; otherwise nothing changes |
| LinePacker.Append | src/render.c:363-372 | one element is added with its bytes counted and its copy registered |
| LinePacker.Push | src/render.c:311-378 | the recursion ends, and the pending line stays within 256 elements and strictly below the budget |
| LinePacker.FlushEmitsFittingRow | src/render.c:287-309 | a flushed row is non-empty, has at most 256 elements and fits the budget |
| LinePacker.PushEmitsFittingRows | src/render.c:311-378 | every row a push emits fits the budget and the element capacity, and earlier output is kept |
| LinePacker.FlushKeepsElements | src/render.c:302-304 | flushing loses and reorders no element |
| LinePacker.PushKeepsContent | src/render.c:311-378 | a push adds elements in the fragment's style, one buffer each, and what is shown (the rows' bytes with a break after each row, then the pending line) grows by the fragment's bytes in order; the only bytes missing are runs of spaces right after a row break that follows a byte of the fragment |
| LinePacker.NoRowNothingDropped | src/render.c:311-378 | a push that emits no row drops nothing: its new elements spell the fragment exactly |
| LinePacker.ZeroBudgetRepeats | src/render.c:321-357 | as written, with budget 0 on an empty line, a fragment not starting with a space is cut at 0; the empty head becomes a row with one empty element and the tail to push again is the whole fragment on an empty line |
| LinePacker.PlaceKeepsContent | src/render.c:363-377 | a fragment that fits is added as one element, unchanged |
| LinePacker.OverflowKeepsContent | src/render.c:324-346 | the same content guarantee for a fragment that overflows the line: its bytes are shown in order, with spaces missing only right after a row break |
| LinePacker.SplitAtKeepsContent | src/render.c:348-360 | a split first shows the head and ends its row, and what is shown afterwards extends that; the whole fragment is shown in order with only the spaces right after that break (or a later one) missing |
| LinePacker.FragmentThatFits | src/render.c:363-377 | a fragment that fits stays pending; one that fills the budget exactly is emitted with the line at once |
| LinePacker.WrapAtLastSpace | src/render.c:326-350 | an overflowing fragment with a space in the room is cut after its last such space, and that head ends the current row |
| LinePacker.MoveToFreshLine | src/render.c:337-341 | a fragment without a space that fits an empty line flushes the current one and starts a new line |
| LinePacker.HardSplit | src/render.c:343-350 | a fragment with no space and longer than the budget is cut hard, so that the row it ends holds exactly the budget |
| LinePacker.FirstRowOfSplit | src/render.c:348-350 | after a split, the next row is the pending line plus the head |
| LinePacker.ChunksBecomeRows | src/render.c:311-378 | k copies of a budget-wide chunk ending in a space become exactly k rows of that chunk |
| LinePacker.TwentyWords | src/render.c:311-378 | twenty five-byte words under a budget of 20 become five rows of four words |
| Styles.Config | src/render.c:389-443 | only inline code is blue; body styles use the base font size |
| Styles.HeadingStyle | src/render.c:678-694 | every level maps to a heading style; H5 is chosen exactly for levels 5 and up (and 0) |
| Styles.HeadingSizesDecrease | src/render.c:408-436 | a deeper heading is never larger, and every heading is larger than body text |
| Styles.SpanStyle | src/render.c:636-654 | emphasis, strong and inline code have a body style of their own; every other span has none |
| Styles.CDiv | src/render.c:1190 | C's truncating division, agreeing with Dafny's on non-negative operands |
| Styles.BudgetDefinedIff | src/render.c:1190 | the budget formula is defined exactly when the font size is at least 2 in magnitude |
| Styles.BudgetPositive | src/render.c:1190 | a font size of at least 2 on a screen at least that wide gives a budget of at least 1 |
| Styles.NarrowWindowGivesZeroBudget | src/render.c:1190 | as written, a 21-pixel window at the default size 22 gives a budget of 0 |
| Styles.BudgetMonotonic | src/render.c:1190 | a wider screen or a smaller font never lowers the budget |
| Styles.FrameFontSize | src/render.c:1174-1181 | per frame: `=` adds 3, `-` subtracts 3, `0` resets to 22, no key leaves the size alone |
| Styles.MainLoopFontSize | src/render.c:1236-1249 | the main loop's keys: `=` adds 1, `-` subtracts 1, `0` wins and resets to 22 |
| Styles.UpdateFrameFontSize | src/render.c:1174-1181 | inside `update_frame`: `=` adds 2 and `-` subtracts 2 |
| Styles.MinusPresses | src/render.c:1178-1181 | n frames that each press `-` lower the size by 3n |
| Styles.MinusKeysReachDivisionByZero | src/render.c:1190 | seven presses of `-`, one per frame, reach font size 1, where the budget divides by zero |
| Styles.ClampedFrameFontSize | src/render.c:1174-1181 | corrected: never below 2, and equal to the unclamped size whenever that is at least 2 |
| Styles.ClampedBudgetAlwaysDefined | src/render.c:1190 | with the clamp, the budget is defined on every frame of any key sequence |
| Walk.GlyphsAreUtf8 | src/render.c:884-944 | the bullet string is U+2023 in UTF-8, and the missing-image text starts with U+1F5BC in UTF-8 followed by ASCII |
| Walk.CodeLines | src/render.c:739-744 | a code block shows each text child verbatim as one body-text element, in order |
| Walk.OpenItem | src/render.c:861-885 | opening an item discards the pending line (`textline_init`, nothing is emitted for it), then opens the item's box, declares the marker (the counter before it advances in an ordered list, the bold bullet otherwise) and opens the content box; in an ordered list the counter advances by one |
| Walk.ItemMarker | src/render.c:871-885 | the marker declared is the counter's decimal form in ordered mode and the bold bullet otherwise; it keeps the pending line and advances the counter only in ordered mode |
| Walk.RenderFrame | src/render.c:1217-1225 | a frame that does not exit releases every temporary buffer it registered |
| WalkFacts.NodeQuiet | src/render.c:622-1030 | a subtree with no list issues no marker and leaves counter and mode unchanged |
| WalkFacts.ItemNumbered | src/render.c:852-900 | an ordered item with content draws the current counter as its marker and advances it by one; an item without children draws no marker |
| WalkFacts.EntriesNumbered | src/render.c:810-813 | consecutive ordered items draw consecutive numbers, and the counter advances by their count |
| WalkFacts.OrderedListNumbering | src/render.c:781-818 | an ordered list whose items hold no lists of their own (`FlatEntries`) numbers its non-empty items start, start+1, … and afterwards restores the outer counter and mode |
| WalkFacts.NodeKeepsCounter | src/render.c:781-818 | lists nested at any depth leave the enclosing counter and mode as they were |
| WalkFacts.ItemAdvancesCounter | src/render.c:852-900 | one item advances the counter by exactly one in ordered mode, and not at all otherwise, whatever it nests |
| WalkFacts.EntriesAdvanceCounter | src/render.c:810-813 | a list's children advance the counter by the number of items among them (ordered mode only) |
| WalkFacts.TextNodeContent | src/render.c:622-634 | a text node's bytes are shown in order in body style, with spaces missing only right after a row break; a soft break first pushes one space |
| WalkFacts.SpanContent | src/render.c:636-669 | a styled span shows its first text child's bytes in order in its style, with spaces missing only right after a row break; any other span draws nothing |
| WalkFacts.HeadingBypassesLine | src/render.c:671-705 | a heading is declared whole, outside the pending line, at a size larger than body text |
| WalkFacts.ParagraphEndsLine | src/render.c:949-970 | after a paragraph nothing is pending |
| WalkFacts.ImageOutcome | src/render.c:902-947 | the walk exits exactly when the lookup is fatal; otherwise it draws the texture when it loaded and the placeholder when it did not |
| WalkFacts.ImageRerenderHits | src/render.c:902-907 | drawing the same image again, in the next frame, draws the same thing from the cache |
| WalkFacts.AsWrittenMarkerFits | src/render.c:878-879 | `char index[4]` holds the printed counter exactly while it is below 1000 |
| WalkFacts.MarkerOverflowAt1000 | src/render.c:878-879 | item 1000 prints 4 digits and a NUL into 4 bytes |
| WalkFacts.CorrectedMarkerBufferFits | src/render.c:878-879 | a 12-byte buffer holds any non-negative 32-bit counter |
| Render.Renderer.constructor | src/render.c:85-87 | list mode ordered, counter 1 (`list_item_index`, initialised at line 779), base font size 22, empty line, no buffers, empty image cache |
| Render.Renderer.TextlineInit | src/render.c:282-285 | the line is `Init` of the old one |
| Render.Renderer.TextlineFlush | src/render.c:287-309 | the state is `Flush` of the old one, emitting the pending elements as one row |
| Render.Renderer.TextlinePush | src/render.c:311-378 | the array-backed line reaches `Push` of the old line, with the budget and list state untouched |
| Render.Renderer.TextlinePlace | src/render.c:363-377 | the line reaches `Place` |
| Render.Renderer.AppendElement | src/render.c:364-372 | the line reaches `Append`: one element stored and counted, one copy registered |
| Render.Renderer.StoreElement | src/render.c:369-371 | the element enters the array after the pending ones and its length joins `char_count` |
| Render.Renderer.TextlineOverflow | src/render.c:324-346 | the line reaches `Overflow` |
| Render.Renderer.TextlineFreshLine | src/render.c:337-341 | the line reaches a flush followed by the push |
| Render.Renderer.FindWrap | src/render.c:326-333 | the backward scan finds `LastSpace` |
| Render.Renderer.SkipLeadingSpaces | src/render.c:353-356 | the scan finds `SkipSpaces`: the first non-space at or after the cut |
| Render.Renderer.TextlineSplitAt | src/render.c:348-360 | the line reaches `SplitAt` |
| Render.Renderer.RenderNode | src/render.c:1021-1030 | the state reaches `Walk.RenderNode` |
| Render.Renderer.RenderTextNode | src/render.c:622-669 | the state reaches `Walk.RenderInline` |
| Render.Renderer.RenderImage | src/render.c:902-947 | the state (or the exit) reaches `Walk.RenderImage` |
| Render.Renderer.RenderBlock | src/render.c:972-1019 | the state reaches `Walk.RenderBlock`, with the list mode saved and restored |
| Render.Renderer.BlockSwitch | src/render.c:975-1016 | each block type is dispatched to its renderer, and the state reaches `Walk.RenderBlockBody` |
| Render.Renderer.EnterList | src/render.c:996-1007 | entering a list ends the pending line and sets the list mode |
| Render.Renderer.RenderChildren | src/render.c:964-967 | the children are walked in order, stopping at an exit; the state reaches `Walk.RenderChildren` |
| Render.Renderer.RenderParagraph | src/render.c:949-970 | the state reaches `Walk.RenderParagraph` |
| Render.Renderer.RenderHeading | src/render.c:671-705 | the state is `Walk.RenderHeading` of the old one |
| Render.Renderer.RenderCodeBlock | src/render.c:719-746 | a code box holding `CodeLines` of the children is declared |
| Render.Renderer.RenderQuoteBlock | src/render.c:748-777 | the state reaches `Walk.RenderQuote` |
| Render.Renderer.RenderOrderedList | src/render.c:781-818 | the state reaches `Walk.RenderOrderedList` |
| Render.Renderer.RenderUnorderedList | src/render.c:820-850 | the state reaches `Walk.RenderUnorderedList` |
| Render.Renderer.RenderListItem | src/render.c:852-900 | the state reaches `Walk.RenderListItem` |
| Render.Renderer.OpenItem | src/render.c:861-885 | the state is `Walk.OpenItem` of the old one |
| Render.Renderer.ItemMarker | src/render.c:871-885 | the state is `Walk.ItemMarker` of the old one |
| Render.Renderer.RenderMarkdownTree | src/render.c:1036-1070 | the state reaches `Walk.RenderTree` |
| Render.Renderer.UpdateFrame | src/render.c:1166-1228 | the font size takes the frame's keys, the budget is recomputed from it, the tree is drawn, and every buffer the frame registered is released |
| Render.Renderer.SetBudget | src/render.c:1190 | `g_available_characters` becomes `Budget(screen width, font size)` |
| Render.Renderer.UpdateFrameKeys | src/render.c:1174-1181 | the font size becomes `UpdateFrameFontSize` of the old one, and nothing else changes |
| Render.Renderer.MainLoopKeys | src/render.c:1236-1249 | the font size becomes `MainLoopFontSize` of the old one, and nothing else changes |
| Render.Renderer.MainLoopStep | src/render.c:1230-1252 | one loop iteration: the size becomes `FrameFontSize` of the old one and the frame reaches `Walk.RenderFrame` under the new budget |
| Render.Renderer.Cleanup | src/render.c:1259-1266 | every temporary buffer and every cached image is released, the latter by the corrected loop, and the cache pointer is -1 |

## Left out

- The textline packer counts bytes, not codepoints: `char_count` adds the
  string's byte length. A multi-byte character costs more than one unit of
  budget, as it does in the code.
- The budget is `width / (size / 2) - 1` with C's truncating division, as in
  `src/render.c:1190`, including the `- 1`.
- When a line is split at a space, the space stays at the end of the head.
  The tail's leading spaces are skipped.
- LinePacker.Push and the `Textline*` methods require a budget of at least 1.
  With a budget of 0 or less, `textline_push` recurses without end (fourth
  row under "## Findings"). The frame methods require the new budget to be at
  least 1.
- The `malloc` in `textline_push` and the `realloc` in
  `ensure_temp_text_capacity` are assumed to succeed. The source does not
  check either result.
- The `exit(1)` of `make_clay_string_copy` on a failed `malloc` is not
  modelled.
- The ordered-item marker's copy from `make_clay_string_copy` is never
  registered or freed, so it leaks. The model declares the marker's digits
  without tracking that copy.
- Render.Renderer.Cleanup does not model `free(g_temp_text_buffers)` and the
  `if (g_temp_text_buffers)` guard; the array is kept.
- Render.Renderer.Cleanup releases the images with the corrected loop
  (Images.ImageCache.CleanAllImages), not the as-written `clean_images_array`
  of `src/render.c:1265`. It therefore also releases the last cached entry,
  which the program leaks (first row under "## Findings").
- RaylibText.TextRenderBuffer.PrepareText: the unchecked `malloc` at
  `include/clay/clay_renderer_raylib.c:228` is assumed to succeed.
- EventQueue.Queue.NextNode: `next_node` frees only the node, so the old
  head's text buffer leaks (`src/parser.c:44`). The model does not track that
  buffer.
- Render.Renderer.UpdateFrame requires the pending line to fit the new
  budget, because the line persists between frames.
- Render.Renderer.RenderHeading requires the heading's first child to be a
  text node; the code dereferences `first_child` without a check.
- Images.ImageCache.FindOrLoadImage: `images_array_pointer` is incremented
  before the 256 check, so the pointer is 256 on that exit path. The process
  exits, so the model does not keep that state.
- Files and `strdup` outcomes are parameters, fixed for the whole frame.
- Clay's widths, floats, padding, colours other than their role, scrolling
  (`handle_vim_scroll_motions`), fonts and font loading, the debug toggle, and
  Raylib input polling and drawing calls are abstracted into declarations
  (`Layout.Decl`).
- `wrapMode` and the other fields of a Clay text config are not modelled.
- The main loop models one iteration.
  - The `while (!WindowShouldClose())` check is not modelled.
  - The `Q` key that breaks the loop is not modelled.
- The width arithmetic of `Raylib_MeasureText` is not modelled. Only its
  decode loop is.
- EventQueue nodes keep one view per union member. The overlap of the C
  `union` is not modelled.
- `size + 1` in `on_text` and the registry's capacity doubling are unbounded
  integers here, so their 32-bit overflow is not modelled.
- The node type of `src/parser.h` is the one used by `src/parser.c`. Where
  the two disagree, the `.c` file was followed.
- The tree builder that the walk assumes (`get_root_node`) is not part of
  this model; the walk takes a `Md4c.MarkdownNode` tree.
- `src/main.c` and the top-level `parser.c` (an older printing parser) are not
  part of this model.
- `print_nodes` is modelled only as its walk (EventQueue.Queue.Traverse),
  without the printing.

## Findings

| source | as written | input that shows it | evidently intended | confidence | as-written member | corrected member |
|---|---|---|---|---|---|---|
| src/render.c:266 | `for (int i = 0; i < images_array_pointer; i++)` frees entries 0 … pointer−1 | one cached image (pointer 0): the loop body never runs and its texture and path copy are never released | `i <= images_array_pointer`, releasing every stored entry | not executed | Images.ImageCache.CleanImagesArray, Images.CleanMissesLastEntry | Images.ImageCache.CleanAllImages, Images.FullCleanVisitsEveryEntry |
| src/render.c:878-879 | `char index[4]; sprintf(index, "%d", list_item_index)` | an ordered list whose counter reaches 1000 (for example one starting at 1000) writes 5 bytes into 4 | a buffer large enough for any `int`, e.g. 12 bytes | not executed | WalkFacts.AsWrittenMarkerFits, WalkFacts.MarkerOverflowAt1000 | WalkFacts.CorrectedMarkerBufferFits |
| src/render.c:1190 with 1178-1181 and 1241-1244 | the minus keys lower `g_base_font_size` without a bound, and the budget divides by `g_base_font_size / 2` | seven presses of `-` from 22 reach size 1, and `1 / 2 == 0` is the divisor | a minimum font size of 2, which keeps the divisor positive | not executed | Styles.FrameFontSize, Styles.MinusKeysReachDivisionByZero | Styles.ClampedFrameFontSize, Styles.ClampedBudgetAlwaysDefined |
| src/render.c:1190 with 336-357 | the budget `width / (size / 2) - 1` can be 0, and `textline_push` then cuts at `wrap_pos = 0` and pushes the whole fragment again | a window 21 pixels wide at font size 22 gives budget 0; a fragment `"a"` on an empty line then emits a row with one empty element and calls `textline_push("a", 1)` again on an empty line, without end | a budget of at least 1, which a window at least as wide as the font size gives | not executed | Styles.NarrowWindowGivesZeroBudget, LinePacker.ZeroBudgetRepeats | Styles.BudgetPositive, LinePacker.PushKeepsContent |

The walk prints list markers through `Bytes.Decimal` with no buffer bound,
which is the corrected behaviour. `Cleanup` uses the corrected cleaning loop.
The packer and the frame methods require a budget of at least 1, the
corrected domain of the fourth finding; on it `Push` always finishes.
The frame methods keep the source's unclamped font arithmetic. Their
precondition `BudgetDefined` excludes the division by zero that the third
finding exhibits.
