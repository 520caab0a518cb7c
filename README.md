# GIF decoder model

A Dafny model of the GIF decoder in `mod-gif.c` of the ren-c GIF extension.
It covers the signature check `Has_Valid_GIF_Header`, the variable-width LZW
decompressor `Decode_LZW` (GIF89a Appendix F) with its interlaced row order
(GIF89a Appendix E), and the block walker inside `DECODE_GIF`, which turns a
byte buffer into an ordered sequence of RGBA frames. The Rebol host glue is
left out.

Modules, leaves first:

- `GifBytes` (`gif_bytes.dfy`): bytes, the `Error` kinds, `Result`/`Option`,
  and the integer forms of the C shifts, `&` and the little-endian 16-bit
  field.
- `GifHeader` (`gif_header.dfy`): `Has_Valid_GIF_Header` as a pure function,
  with the C `strncmp` modelled byte by byte.
- `GifInterlace` (`gif_interlace.dfy`): the `{0,4,2,1}` / `{8,8,4,2}`
  schedule. `Schedule(h)` is the reference order, and the decoder's row
  cursor is proved to follow it.
- `LzwDict` (`lzw_dict.dfy`): the LZW dictionary as a value. `DecodeCode` is
  what one code does to `prefix`, `suffix`, `available`, `code_size`,
  `code_mask`, `old_code` and `first`, and what it pushes on the pixel stack.
  `Expand` is the string a code stands for. The lemmas state the LZW
  invariant, the code-width growth rule and the stack bound.
- `LzwBits` (`lzw_bits.dfy`): the bit reader. `Data` is the sub-block
  payload still to come. `Stream` is that payload read as one little-endian
  number. `CodeStream` says which codes it holds when each code is as wide
  as the code width in force when it is read. `FillBits` and `NextCode` are
  proved to keep the reader invariant `ReaderOk`: no bit is lost or
  invented, and the codes read are exactly the stream's fields.
- `LzwDecoder` (`lzw_decoder.dfy`): `Decode_LZW` as imperative Dafny.
  `prefix`, `suffix` and `pixel_stack` are 4096-slot arrays changed in place.
  The caller's `w*h*4` buffer is an `array<byte>`. The nested `y`/`x` loops
  become methods with loop invariants. Each code read is proved to be the
  next field of the image data and to act as `LzwDict.DecodeCode` says. A
  row shorter than w is proved to end at a zero sub-block length, an end or
  bad code, or a full table. The bytes written are `Paint` of the rows
  decoded, and `Paint` is proved to lay rows out row-major or in interlaced
  order. `LzwFrom` is a reference decoder written as plain recursive
  functions: it reads a code only when the pixel stack is empty, pops one
  index per pixel, and ends a row only at w pixels or at a break. Every
  method, from reading one code up to `DecodeLzw`, is proved to produce
  exactly what the reference produces from the same state, errors included.
  Whatever the 4096-slot tables held before the call, the result is the same
  (`LzwTablesUnread`).
- `GifStream` (`gif_stream.dfy`): the `DECODE_GIF` block walker over
  `seq<byte>` with a bounds-checked cursor. It also holds data sub-block
  skipping, the Graphic Control Extension, colour-table selection and the
  image descriptor. `NextSite` is the reference walker: from a cursor, the
  next image block the loop reaches. `ImageAt` decodes one image with
  `LzwFrom`. `WalkFrom` chains `NextSite` and `ImageAt` from the first cursor
  to the end of the walk, and `GifFrom` is the whole reference decode.
  `DecodeGif` is proved to fail exactly when `GifFrom` fails, with the same
  error. On success its images are `GifFrom`'s pictures, in order: the same
  places, descriptors, tables, rows and resume cursors. It reports
  `EmptyResult` exactly when there are none.

Array bounds are checked by Dafny itself, so three safety obligations are
discharged wherever the arrays are indexed. Every `prefix`/`suffix` index is
below 4096 (`PushChain`, `StoreEntry`). The pixel stack stays within its 4096
slots (`ExtendString`, via `LzwDict.PushedFitsStack`). Every pixel write lies
inside the `w*h*4` buffer (`PutPixel`, via `PixelIndexBound`).

Source quirks that are reproduced:

- Every `break` in `Decode_LZW` ends only the current row. In non-interlaced
  mode the write position is not advanced for the pixels skipped, so the
  following rows pack up against the short row. `PixelIndex` is the count of
  pixels written so far.
- The pixel stack and the dictionary carry over from one row to the next.
- After an image the cursor is `consumed + rest + 1`: the position after the
  last byte read, plus the unread bytes of the current sub-block, plus one.
- `transparency_index` is parsed, never reset between images, and never
  applied. Each frame's trace records the value in force, and the pixels
  always get alpha 0xFF.
- When an extension label is `,`, control falls through into image parsing,
  because `c` has been overwritten by the label.

## Model

| member | source | states |
|---|---|---|
| `GifHeader.HasValidGifHeader` | mod-gif.c:211-222 | accepted iff the buffer has at least 5 bytes and its first five are exactly "GIF87" or "GIF89" |
| `GifHeader.SignatureDecides` | mod-gif.c:211-222 | only the five signature bytes decide acceptance, whatever follows them |
| `GifHeader.ShortBufferRejected` | mod-gif.c:212-213 | a buffer of fewer than 5 bytes is rejected |
| `GifBytes.Le16` | mod-gif.c:44 | `LSBFirstOrder(lo, hi)` is a 16-bit value whose low byte is `lo` and high byte is `hi` |
| `GifBytes.BitAndLowMask` | mod-gif.c:144 | masking with `2^k - 1` keeps exactly the low k bits of `datum`, i.e. the next code |
| `GifBytes.ShlIsMul` | mod-gif.c:138 | `datum += *cp++ << bits` adds the byte times `2^bits`: the shift on unbounded integers is multiplication by a power of two |
| `GifInterlace.ScheduleIsPermutation` | mod-gif.c:46-47 | the four passes visit h rows, all below h, no row twice, every row once |
| `GifInterlace.EightRowOrder` | mod-gif.c:46-47 | for h = 8 the rows are written in the order 0,4,2,6,1,3,5,7 |
| `GifInterlace.NextRow` | mod-gif.c:197-201 | the corrected cursor step: within a pass the row grows by the pass's rate; otherwise it moves to the first later pass with a row below h, every pass skipped having none; a cursor still in a pass stands below h |
| `GifInterlace.NextRowAsWritten` | mod-gif.c:197-201 | the source's step: the row grows by the rate; past h it takes the next pass's start row unchecked; it has no next row exactly when the last pass runs past h |
| `GifInterlace.CursorRow` | mod-gif.c:197-203 | after y finished rows, the decoder's (corrected) row cursor stands on `Schedule(h)[y]`, which is below h |
| `GifInterlace.AsWrittenAgreesOnTallImages` | mod-gif.c:197-201 | for h >= 5 the source's single, unchecked pass switch agrees with the corrected one before the last pass |
| `GifInterlace.AsWrittenLeavesShortImage` | mod-gif.c:197-201 | for h in 2..4 the source moves from row 0 to row 4, outside the image |
| `LzwDict.InitDict` | mod-gif.c:103-114 | clear = 2^data_size, available = clear+2, code_size = data_size+1, code_mask = 2^code_size - 1, old_code = none; each literal c < clear has prefix 0 and suffix c; other slots unchanged; the state is valid |
| `LzwDict.InitMaskValid` | mod-gif.c:108-109 | for data sizes 2..11 the initial width and mask agree (`code_mask == 2^code_size - 1`, width <= 12) |
| `LzwDict.Cleared` | mod-gif.c:152-157 | the clear code restores code_size = data_size + 1, its mask, available = clear + 2 and old_code = none, keeps both tables and `first`, and keeps the dictionary valid |
| `LzwDict.Walk` | mod-gif.c:171-174 | following `prefix` from a code ends on a literal below `clear`, after at most `code - clear - 1` pushes |
| `LzwDict.WalkReversesExpand` | mod-gif.c:171-175 | the chain loop pushes the code's string last index first, and stops on the string's first index |
| `LzwDict.AddEntry` | mod-gif.c:180-187 | the new slot `available` gets prefix old_code and suffix first; available grows by one; old_code becomes in_code; the width grows by at most one, and only while available stays below 4096 |
| `LzwDict.DecodeCode` | mod-gif.c:149-187 | a bad code, the end code and a full table leave `prefix`, `suffix`, `available` and `old_code` unchanged |
| `LzwDict.DecodeCodeKeepsValid` | mod-gif.c:149-187 | every code keeps the tables at 4096 slots, `available <= 4096`, literal suffixes intact and every prefix chain finite |
| `LzwDict.DecodeCodeMeaning` | mod-gif.c:166-187 | a non-first code outputs its string (or old string + its first index when code == available), adds exactly one entry `prefix[available] = old_code`, `suffix[available] = first`, and keeps every older string |
| `LzwDict.FirstCodeOutputsLiteral` | mod-gif.c:160-165 | the first code after start or clear is a literal, outputs its own index and adds no entry |
| `LzwDict.ClearRestoresInitial` | mod-gif.c:152-158 | the clear code resets code_size, code_mask, available and old_code to their initial values, keeps the tables, pushes nothing |
| `LzwDict.CodeWidthGrowth` | mod-gif.c:183-186 | code_size grows by one exactly when available reaches 2^code_size below 4096, so `code_mask == 2^code_size - 1` and `code_size <= 12` are preserved |
| `LzwDict.AddEntryGrowth` | mod-gif.c:182-186 | after adding an entry, the width grows exactly when `available` reaches `2^code_size` below 4096, and the mask stays `2^code_size - 1` |
| `LzwDict.PushedFitsStack` | mod-gif.c:97-101 | one code pushes at least one index when it emits, and never more than `available - clear` < 4096 |
| `LzwDict.Run` | mod-gif.c:123-188 | decoding any code sequence from a valid dictionary gives a valid dictionary |
| `LzwDict.InitOverrunsTables` | mod-gif.c:103-114 | a code-size byte of 13 makes the initialisation loop write 8192 slots and 12 puts `available` at 4098; sizes up to 11 fit |
| `LzwDict.FirstCodeSelfLoop` | mod-gif.c:160-182 | with data size 2 and freshly allocated tables taken as zero (any allocation with `prefix[6] <= 4` behaves the same), the source's first-code branch accepts code 6 == available; the next code 6, taken through `LaterCodeAsWritten` (the chain walk from `old_code` as written), stores `prefix[6] = 6`, a chain that never ends |
| `LzwDict.WalkSameStrings` | mod-gif.c:171-174 | two dictionaries that agree on every reachable slot walk every code to the same pushes and root |
| `LzwDict.DecodeCodeSameStrings` | mod-gif.c:149-187 | one code does the same thing to two dictionaries that agree on their scalars and reachable slots, and they still agree afterwards: slots no chain reaches are never read |
| `LzwBits.ReaderStart` | mod-gif.c:116-118 | the empty buffer at the first sub-block length, with no code read, satisfies the reader invariant: the stream still to deliver is the whole image data |
| `LzwBits.FillBits` | mod-gif.c:128-142 | only bytes move from the data into the buffer (each at offset `bits`), so the value and number of bits still to deliver are unchanged and the reader follows the sub-block chain; `Ready` iff `code_size` bits are buffered; `BlockEnd` just after a zero length byte; `Truncated` only at the end of the input with fewer than `code_size` bits left |
| `LzwBits.ReadField` | mod-gif.c:128-146 | reading one code moves the cursor forward within the input, uses up at least one bit when it is `Ready`, and ends at the input's end when `Truncated` |
| `LzwBits.NextCode` | mod-gif.c:126-146 | the code read equals the reference read `ReadField`; a `Ready` read returns the next field of the code stream (`codes + [code]` keeps `ReaderOk`), below the mask, and uses up fuel; `BlockEnd` stops just after a zero length byte on the sub-block chain; `Truncated` means fewer than `code_size` bits were left; otherwise no code is read and the reader invariant holds |
| `LzwBits.FetchCode` | mod-gif.c:128-146 | on any well-formed buffer the read equals `ReadField`: the fill is `Filled`, then `Ready` takes `datum & code_mask` and shifts `code_size` bits out, while the other outcomes leave the filled reader as it is; the fill moves forward along the sub-block chain, loses no bit, and ends a `BlockEnd` at a zero length byte |
| `LzwBits.TakeCode` | mod-gif.c:143-146 | `datum & code_mask` taken off a buffer holding `code_size` bits, followed by the shift, is the next field of the stream, and the reader invariant holds for the longer code sequence |
| `LzwBits.CodeStreamUnique` | mod-gif.c:126-146 | the codes are fixed by the image data: two code sequences of one length read from the same stream are equal |
| `LzwDecoder.InitLiterals` | mod-gif.c:111-114 | every literal slot gets prefix 0 and suffix c; the other slots are untouched |
| `LzwDecoder.NewTables` | mod-gif.c:97-114 | three fresh 4096-slot tables whose contents with the locals are `InitDict(data_size)` |
| `LzwDecoder.ReadOne` | mod-gif.c:126-187 | the reference for one code read with the stack empty: the dictionary stays valid, the cursor moves forward, a `Ready` read uses up input; without a code nothing is pushed and the dictionary is unchanged |
| `LzwDecoder.RefillFrom` | mod-gif.c:126-164 | the reference for the `continue` paths: reading codes until one pushes something, ends the row or the data ends; a `Ready` result that does not end the row leaves a non-empty stack |
| `LzwDecoder.TurnFrom` | mod-gif.c:124-195 | the reference for one turn of the `x` loop: refill only on an empty stack, then pop one index; a pixel adds exactly one index to the row, any other outcome adds none |
| `LzwDecoder.RowFrom` | mod-gif.c:124-196 | the reference for one row: turns until w pixels or a break or a failure; the row never exceeds w and the cursor only moves forward |
| `LzwDecoder.RowsFrom` | mod-gif.c:123-204 | the reference for the `y` loop: each row starts from the dictionary, stack and reader the previous row left, and the first failure ends it; on success there are exactly h rows, extending those already decoded, and the cursor has only moved forward |
| `LzwDecoder.LzwWith` | mod-gif.c:86-208 | the reference for `Decode_LZW` on given initial tables: a missing size byte is `TruncatedStream`, a size above 11 `BadCodeSize`; on success there are h rows and the resume cursor lies beyond the size byte |
| `LzwDecoder.LzwFrom` | mod-gif.c:86-208 | the reference for `Decode_LZW` with zeroed tables; on success there are h rows and the resume cursor lies beyond the size byte |
| `LzwDecoder.RowsSameStrings` | mod-gif.c:123-204 | the rows, errors and cursor decoded from two dictionaries that agree on every reachable slot are equal |
| `LzwDecoder.LzwTablesUnread` | mod-gif.c:97-114 | the decode does not depend on what the `prefix`/`suffix` tables freshly allocated by `rebAllocN` hold above the literals (their contents are unspecified) |
| `LzwDecoder.ReadCode` | mod-gif.c:126-187 | fills the buffer and applies one code: on `Ready` exactly one code, the next stream field, is read (`ReaderOk` of `codes'`); the arrays equal `Run(d0, codes')`; output plus the stack popped equals `Run`'s output; `endRow` exactly after an end, bad or table-full code; `BlockEnd` only after a zero length; the flags, dictionary, reader and stack are exactly `ReadOne`'s |
| `LzwDecoder.PushChain` | mod-gif.c:171-174 | the chain loop pushes exactly `Walk(d, code).pushed` on the stack and stops at its root |
| `LzwDecoder.StoreEntry` | mod-gif.c:180-186 | the arrays and locals after adding an entry are `AddEntry(d, first, in_code)` |
| `LzwDecoder.ExtendString` | mod-gif.c:166-187 | the stack holds what `DecodeCode` pushes; the arrays and locals hold the dictionary after it; `endRow` is the full-table break |
| `LzwDecoder.ApplyCode` | mod-gif.c:149-187 | one code read with the stack empty does what `DecodeCode` says; `endRow` reports the breaks at lines 150 and 179 |
| `LzwDecoder.Refill` | mod-gif.c:126-164 | the `continue` paths read stream fields until the stack holds an index, the data ends, or a code ends the row; `endRow` only after an end, bad or table-full code; `BlockEnd` only after a zero length; the flags, dictionary, reader and stack are exactly `RefillFrom`'s |
| `LzwDecoder.Rgba` | mod-gif.c:190-194 | each pixel is four bytes, the table's R, G, B for the index, then alpha 0xFF |
| `LzwDecoder.PutPixel` | mod-gif.c:190-194 | writes exactly those four bytes at `dp` and nothing else |
| `LzwDecoder.Pop` | mod-gif.c:189 | `top_stack--` yields the stack's top index; the output followed by the rest of the stack still spells the decoded string |
| `LzwDecoder.EmitPixel` | mod-gif.c:190-195 | writing the pixel makes the buffer `Paint` of the row extended by the index, and moves `dp` to the next pixel slot |
| `LzwDecoder.PopPixel` | mod-gif.c:189-195 | pops the top index; if it addresses the table, the output becomes `Paint` of the row extended by it and `dp` moves by 4 |
| `LzwDecoder.TakePixel` | mod-gif.c:189-195 | pops one index; the outcome, the stack left and the row are exactly `PopTurn`'s, and a pixel is painted where the layout puts it |
| `LzwDecoder.PixelIndexBound` | mod-gif.c:191-202 | every pixel written lies inside the `w*h*4` buffer (unbounded integers, see Findings) |
| `LzwDecoder.RowStep` | mod-gif.c:124-195 | one turn of the `x` loop writes one pixel, or ends the row only at a zero sub-block length or an end, bad or table-full code, or fails; codes read are stream fields; the decoded-output invariant is kept; the outcome is `TurnFrom`'s, and unless it fails the dictionary, reader, stack and row are too |
| `LzwDecoder.DecodeRow` | mod-gif.c:124-196 | one row of at most w in-table indices, written where the layout puts them; fewer than w only when a zero sub-block length or an end, bad or table-full code ended it; the failure is `RowFrom`'s, and without one the dictionary, reader, stack and row are too |
| `LzwDecoder.NextRowStart` | mod-gif.c:197-203 | after a row, the interlace cursor moves to the next row of the schedule and `dp` points at its first pixel |
| `LzwDecoder.ImageRow` | mod-gif.c:123-204 | one turn of the `y` loop adds one row, justified as in `DecodeRow`, and keeps the reader, dictionary, stack and buffer invariants; `RowsFrom` from the new state is `RowsFrom` from the old one, or the failure it reports |
| `LzwDecoder.DecodeRows` | mod-gif.c:123-204 | h rows are decoded from codes that are the stream's fields (`ReaderOk`); their concatenation is a prefix of the LZW expansion of those codes; every short row is justified by a break; the buffer is `Paint` of them; the failure, or the rows and the reader, are exactly `RowsFrom`'s |
| `LzwDecoder.PaintWritten` | mod-gif.c:123-124 | non-interlaced: pixels fill the buffer from its start in order and the rest is unchanged; interlaced: the y-th row decoded lands on row `Schedule(h)[y]` |
| `LzwDecoder.DecodeLzw` | mod-gif.c:86-208 | code size above 11 or missing input is an error; otherwise the dictionary starts as `InitDict`, the codes are the fields of the image data, h rows of in-table indices are a prefix of their LZW output with every short row justified by a break, the buffer holds them in the requested layout, and the cursor returned is `consumed + rest + 1`; it fails exactly when `LzwFrom` does, with the same error, and otherwise returns `LzwFrom`'s cursor and rows |
| `LzwDecoder.Int32` | mod-gif.c:347 | a value as an `int32_t` holds it: in range, unchanged when it fits, and equal to it modulo 2^32 |
| `LzwDecoder.ImageBytesAgree` | mod-gif.c:347 | while `w*h*4` is below 2^31 the C expression gives the buffer size |
| `LzwDecoder.ImageBytesWraps` | mod-gif.c:347 | for w = h = 32768 the C expression `(w * h) * 4` is 0 while the image needs 2^32 bytes, and the offset of row 16384 is negative |
| `GifStream.SubBlocksEnd` | mod-gif.c:318-320 | the end of a run of data sub-blocks is one past a zero length byte, inside the buffer |
| `GifStream.SkipSubBlocks` | mod-gif.c:317-321 | the loop lands where `SubBlocksEnd` says, or reports the run crossing the end of the buffer |
| `GifStream.SubBlocksRoundTrip` | mod-gif.c:317-321 | skipping the encoding of any well-formed chunks lands exactly after their terminator |
| `GifStream.GceStart` | mod-gif.c:310-311 | the loop stops at a byte in the buffer reached in steps of 5, where `cp[0]` or `cp[5]` is zero |
| `GifStream.ParseGce` | mod-gif.c:310-314 | the cursor after a Graphic Control Extension lies beyond where it started |
| `GifStream.ReadGce` | mod-gif.c:308-315 | the loop reads the block as `ParseGce` says |
| `GifStream.GceRoundTrip` | mod-gif.c:308-315 | on a standard 4-byte block the transparent index is taken iff bit 0 of the packed byte is set, and the cursor lands after the terminator |
| `GifStream.TableEntries` | mod-gif.c:290 | a colour table has `2^((packed & 7) + 1)` entries, between 2 and 256 |
| `GifStream.TableAt` | mod-gif.c:291 | the table is the `3 * entries` bytes at its offset when they are in the buffer |
| `GifStream.GlobalTable` | mod-gif.c:286-294 | no table unless bit 7 of byte 10 is set; with it set, the `3 * 2^((b & 7)+1)` bytes from offset 13 when they are in the buffer |
| `GifStream.FirstCursor` | mod-gif.c:286-294 | the walk starts at byte 13, right behind the global colour table when there is one |
| `GifStream.ParseDescriptor` | mod-gif.c:327-345 | a descriptor is read iff its 9 bytes are in the buffer; width and height are 16-bit; a local table exists iff bit 7 of byte 8 is set, with 2 to 256 entries |
| `GifStream.DescriptorRoundTrip` | mod-gif.c:327-339 | width and height are read little-endian from bytes 4-7, interlace from bit 6, local-table flag from bit 7 and size `2^((b & 7)+1)` |
| `GifStream.NextSite` | mod-gif.c:297-325 | the reference walker: the next image block after the cursor, none at the end or a ';', or `TruncatedStream` when an extension runs past the end |
| `GifStream.FindImage` | mod-gif.c:297-325 | the loop finds exactly the site `NextSite` defines, with the transparent index in force there |
| `GifStream.SiteAfterGce` | mod-gif.c:304-315 | after a Graphic Control Extension, an image follows with the transparent index set iff bit 0 of the packed byte is |
| `GifStream.SiteAfterExtension` | mod-gif.c:317-325 | any other extension is skipped up to its terminator; a label of ',' falls through to the image at once |
| `GifStream.TrailerEndsWalk` | mod-gif.c:301-302 | a ';' ends the walk |
| `GifStream.DataStart` | mod-gif.c:336-345 | the image data starts behind the 9-byte descriptor and its local table |
| `GifStream.FrameLayout` | mod-gif.c:347-349 | every frame has `w*h*4` bytes, laid out as its descriptor's interlace flag says |
| `GifStream.ImageAt` | mod-gif.c:325-364 | the reference for one image: a descriptor cut by the end is `TruncatedStream`, errors of `LzwFrom` are the image's, and the picture records its place and resumes beyond it |
| `GifStream.WalkFrom` | mod-gif.c:297-367 | the reference walk: `NextSite`, then `ImageAt` at the site, resuming at the image's cursor; the first error ends it; the pictures found extend those before |
| `GifStream.GifFrom` | mod-gif.c:274-388 | the reference decode: `InvalidHeader`, `TruncatedStream` for a buffer ending inside the screen descriptor, the walk's error, or a non-empty list of pictures (none is `EmptyResult`) |
| `GifStream.DecodePixels` | mod-gif.c:347-349 | a fresh buffer is decoded as `DecodeLzw` promises: the pixels are `Paint` of h rows expanded from the fields of the image data; it fails exactly when `LzwFrom` does, with its error, and otherwise the cursor and rows are `LzwFrom`'s |
| `GifStream.DecodeImage` | mod-gif.c:325-364 | the frame comes from the descriptor at the cursor, with the local table if flagged and the global table otherwise, and its pixels are decoded from the image data behind them; it fails exactly when `ImageAt` does, with its error, and otherwise its image matches `ImageAt`'s picture |
| `GifStream.DecodeGif` | mod-gif.c:283-387 | an invalid header is exactly `InvalidHeader`; otherwise the frames are the images `NextSite` chains through from the first cursor, one per image, in order, up to the end of the walk; `EmptyResult` exactly when the first `NextSite` finds none; it fails exactly when `GifFrom` does, with its error, and otherwise its images match `GifFrom`'s pictures one for one |

## Left out

- Rebol runtime calls are not part of this model. These are `rebLockBytes`/`rebUnlockBytes`, `rebAllocN`/`rebFree`, `rebRepossess`, `rebElide("append frames make-image ...")`, `rebDelegate` and `rebLogic`. Allocation is a fresh Dafny array, and a frame is a plain `(width, height, pixels)` value.
- The `IDENTIFY_GIF_Q` and `DECODE_GIF` native wrappers and their `INCLUDE_PARAMS_OF_*` macros are thin bindings. `HasValidGifHeader` and `DecodeGif` stand for them.
- Whether one frame comes back bare or inside a block (mod-gif.c:386) is a host presentation choice. The model keeps "empty is an error, otherwise an ordered sequence".
- `Chrom_Key_Alpha` (mod-gif.c:50-79) is compiled out, and its only caller is commented out.
- The transparency alpha policy is not modelled: the source computes `p` and discards it (mod-gif.c:351-355).
- Unchecked reads are replaced by errors, because Dafny cannot read past a sequence. Every read through `cp` past the end of the buffer is `Err(TruncatedStream)` for the whole decode. A palette index whose RGB triple lies outside the colour table is `Err(BadColorIndex)`; this includes a missing table, where the source dereferences NULL. A colour table cut off by the end of the buffer is kept as far as it goes.
- Per-image failures abort the whole decode with an explicit error instead of committing a half-filled frame: truncated data, a code size above 11, or a bad colour index. The LZW anomalies the source handles itself (a bad code, the end code, a zero-length sub-block, a full table) still end only the current row, as in the source.
- The contents of a freshly allocated buffer are left unspecified. Pixels no row reaches keep the buffer's original bytes. The reference decoder fixes the rows; the frame's bytes are `Paint` of those rows over the buffer as allocated.
- `LzwDict.CodeWidthGrowth`: stated for minimum code sizes 2 to 11 only. For sizes 0 and 1 the source's `code_mask += available` produces masks that are not `2^n - 1`. The model reproduces that arithmetic but proves nothing about it.
- `LzwDict.DecodeCode`: a first code equal to `available` stops the row instead of reading the unset `suffix[available]` (see Findings).
- `GifInterlace.CursorRow`: states the corrected pass switch, which skips passes with no rows. The source's switch is `NextRowAsWritten` (see Findings).
- `LzwDecoder.DecodeLzw`: only promises that the rows are a prefix of the LZW output. The part left on the stack at the end of the image is discarded, as in the source.
- `LzwBits.NextCode`: for minimum code sizes 0 and 1 the codes are not proved to be the stream's fields (`CodeStream`), because the source's mask is then narrower or wider than the code width. For every size the value and the number of bits still to deliver are proved, so no data byte is lost or invented. The same holds for `LzwDecoder.ReadCode`, `LzwDecoder.Refill`, `LzwDecoder.RowStep`, `LzwDecoder.DecodeRows` and `LzwDecoder.DecodeLzw`.
- `LzwDecoder.PixelIndexBound`: proved on unbounded integers. The source computes `(w * h) * 4` and `(row * w) * 4` on `int32_t`, which wraps once an image needs 2^31 bytes or more (see Findings). The model allocates the true size.

## Findings

| source | as written | input that shows it | evidently intended | confidence | as-written member | corrected member |
|---|---|---|---|---|---|---|
| mod-gif.c:197-203 | after a pass ends, the next pass's start row is not compared with h, and after pass 4 `interlace_start[4]` is read past the table | an interlaced image of height 2, 3 or 4: after row 0 the next row is 4, outside the `w*h*4` buffer | move on to the next pass that has a row inside the image | not executed | `GifInterlace.AsWrittenLeavesShortImage` | `GifInterlace.CursorRow` |
| mod-gif.c:160-164 | the first code after the start or a clear may equal `available`; it stacks the unset `suffix[available]`, and the next code then stores `prefix[available] = available` | minimum code size 2, codes 6, 6, 6, with `prefix[6]` at most 4 as allocated (zero, for instance; the tables come from `rebAllocN` with unspecified contents): the second code's chain walk then ends at once and line 181 stores `prefix[6] = old_code = 6`, so the third code's chain walk never ends, whatever `prefix[6]` held before, and overruns the 4096-slot pixel stack | treat such a code as corrupt and stop the row | not executed | `LzwDict.FirstCodeSelfLoop` | `LzwDict.PushedFitsStack` |
| mod-gif.c:103-114 | the minimum code size byte is used unchecked | code size 13: the literal loop writes 8192 slots of 4096-slot tables; size 12 starts `available` at 4098 | reject code sizes whose clear code, end code and first free slot do not fit in 4096 slots | not executed | `LzwDict.InitOverrunsTables` | `LzwDict.InitDict` |
| mod-gif.c:347 | the buffer size `(w * h) * 4` (also at line 357) and the row offset `(row * w) * 4` (line 202) are computed on `int32_t` | w = h = 32768, which the 16-bit size fields allow: the size comes out 0 while the decoder writes 2^32 bytes, and row 16384's offset is negative | compute the size and offsets without overflow, so that every write lies inside a buffer of `w*h*4` bytes | not executed | `LzwDecoder.ImageBytesWraps` | `LzwDecoder.PixelIndexBound` |
