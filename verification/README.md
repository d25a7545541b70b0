# LOOM image decoding, modelled in Dafny

A model of the SCUMM version 3 (LOOM) picture pipeline of the LOOM tools
and of the small pure helpers next to it, with proofs of what each step
promises.

- **EGA strips.** `ScummV3Decoder.decodeStripV3` decodes a strip of 8 columns
  by `height` rows, filled column by column, from run-length control bytes
  in three modes: single colour, copy of the column to the left, and
  two-colour dither. The Python copies fall into three groups. The guarded
  copies clip or cut runs at column 8. The unguarded copies raise or spill
  into the next row of a flat buffer. The "y-offset" copies start at the row
  held in byte 4. Each copy is its own function, and a lemma says exactly
  where it agrees with `decodeStripV3` and where it differs (modules
  `EgaStrip`, `EgaRuns`, `EgaVariants`).
- **Object images.** `decodeObjectImage` skips zero padding and classifies
  the first word. It then reads the strip table and estimates the height, or
  falls back to the raw or planar decoders. The Python ports and the
  header-size prober of `decode_objects_v3.py` are modelled too (modules
  `OffsetTable`, `ObjectImage`, `ObjectProbe`, `StripTable`, `Canvas`).
- **Room containers.** `extractRoomImage` repackages a room's SMAP table into
  a self-describing container. `decode_scumm_image` reads such a container
  back, and a round-trip lemma connects the two (module `Container`). The
  room readers that draw a whole background are in module `RoomImage`.
- **Fallback decoders.** These are the planar fallback, the raw bit-plane
  strip decoder `decodeStripV3Safe` with `decodeRawFormat`, and the unused
  `decompressRLE` and `planarToChunky` (modules `Planar`, `RawStrip`, `Rle`,
  `Bits`).
- **Helpers.** These are the resource-table grouping and classification, the
  block scanner and its summary, and the object table of a room. They also
  include the EGA palette manager, the script interpreter, the Standard MIDI
  File writer, the "RO" tag, and the sound-format and script-header sniffers
  (modules `Resources`, `Blocks`, `RoomObjects`, `Palette`, `Script`, `Midi`,
  `Sniff`).

Bytes are integers 0..255 (`Bytes.byte`). An image is a width, a height and
a sequence of rows. A decoder's flat buffer `pixels[row * width + col]` is
the cell `rows[row][col]`. A Python exception or a JavaScript throw is an
explicit result constructor (`Thrown`, `Crashed`, `None`), never an
exception.

## Model

| member | source | states |
|---|---|---|
| Bits.Bit | tools/src/engine/ScummV3Decoder.ts:502-505 | `(b >> k) & 1` is bit `k` of the byte, `(b / 2^k) % 2` |
| Bits.Combine | tools/src/engine/ScummV3Decoder.ts:239-244 | four plane bits combine into a palette index below 16 |
| Bits.CombineRoundTrip | tools/src/engine/ScummV3Decoder.ts:502-507 | bit `p` of the combined index is the bit of plane `p` |
| Bits.SplitRoundTrip | tools/src/engine/ScummV3Decoder.ts:244 | every palette index below 16 is the combination of its own four bits, so no index is lost by the plane layout |
| Bytes.U16 | tools/src/engine/ScummV3Decoder.ts:30 | the little-endian word at a position is below 65536 and is the low byte plus 256 times the high byte |
| Bytes.Le16RoundTrip | tools/server.ts:100-106 | the two bytes written for any integer, negative ones included, read back as its value modulo 65536 |
| Bytes.Be16 | convert_to_standard_midi.py:28-30 | `struct.pack('>H')` is two bytes, high first, that read back as the value |
| Bytes.Be32 | convert_to_standard_midi.py:27 | `struct.pack('>I')` is four bytes, most significant first, that read back as the value |
| Bytes.XorDecrypt | tools/server.ts:9-15 | the output has the input's length and every byte is the input byte complemented (255 minus it) |
| Bytes.XorDecryptInvolution | decode_all_resources_complete.py:12-14 | decrypting twice gives the input back |
| Bytes.ClampedSlice | extract_objects_v3.py:104-106 | Python's `data[a:b]` is the bytes between the clamped bounds, empty when `b <= a` |
| Canvas.Compose | tools/src/engine/ScummV3Decoder.ts:110-121 | in the zero image, block `i` occupies columns `8i .. 8i+7` and every column right of the last block stays 0 |
| Canvas.BlitPlaces | tools/src/engine/ScummV3Decoder.ts:368-377 | when the earlier blocks are already in place, copying the next block at its 8-column position leaves all of them in place |
| Canvas.ComposeIndexed | tools/src/engine/ScummV3Decoder.ts:110-121 | composing blocks of palette indices gives an image of palette indices of the requested size |
| Planar.PlanarToChunky | tools/src/engine/ScummV3Decoder.ts:486-513 | the image has the requested size and only indices 0..15; a fractional byte index reads `undefined` and gives 0 |
| Planar.FallbackSize | tools/src/engine/ScummV3Decoder.ts:401-416 | a positive width that is a whole number of 8-column strips; 160 by 64 below 5000 bytes, 160 by 128 below 15000, 160 by 144 below 25000, and 320 by 200 from 25000 bytes on |
| Planar.DecodeFallback | tools/src/engine/ScummV3Decoder.ts:399-451 | the image has the size picked from the length and only indices 0..15 |
| Planar.FallbackPixelIsPlanar | tools/src/engine/ScummV3Decoder.ts:421-445 | a fallback pixel is the planar pixel of the four quarters of the data |
| Planar.FallbackRowIsPlanar | tools/src/engine/ScummV3Decoder.ts:424-448 | every row of the fallback image is the same row of `planarToChunky` on the four quarters |
| Planar.FallbackIsPlanarToChunky | tools/src/engine/ScummV3Decoder.ts:399-451 | the fallback decoder is `planarToChunky` on the four quarters of the data, so its in-range test never fails |
| Rle.DecompressRle | tools/src/engine/ScummV3Decoder.ts:457-481 | the output overshoots the limit by less than one packet (below `maxSize + 128`) and is empty for an empty input or a zero limit |
| Rle.DecompressRlePrefix | tools/src/engine/ScummV3Decoder.ts:461 | a smaller limit gives a prefix of what a larger limit gives |
| Rle.DecompressFromExtends | tools/src/engine/ScummV3Decoder.ts:461-478 | the loop only appends to what it has already produced |
| Rle.DecompressRleRoundTrip | tools/src/engine/ScummV3Decoder.ts:457-481 | decompressing an encoded packet list, with a limit no smaller than its output, gives back the expanded packets |
| RawStrip.DecodeStripSafe | tools/src/engine/ScummV3Decoder.ts:170-255 | an 8 by `h` block of indices 0..15 and a byte count within the data that is 0 exactly for empty data or zero height |
| RawStrip.DecodeStripSafeRoundTrip | tools/src/engine/ScummV3Decoder.ts:191-250 | decoding the per-plane column encoding of any block, followed by any bytes, gives the block back and consumes exactly the encoding |
| RawStrip.WindowRoundTrip | tools/src/engine/ScummV3Decoder.ts:191-250 | column streams laid out at a start inside the readable bytes are read back as the block, consuming exactly their bytes |
| RawStrip.ColumnFromPackets | tools/src/engine/ScummV3Decoder.ts:197-227 | a column stream of packets whose bits fill the column is read back bit for bit, and reading stops right after it |
| RawStrip.StripFromLayout | tools/src/engine/ScummV3Decoder.ts:191-230 | the plane and column loops read laid-out streams back as the 32 columns and stop after the last stream |
| RawStrip.AssembleColumns | tools/src/engine/ScummV3Decoder.ts:233-248 | assembling the 32 plane columns of a block gives the block back |
| RawStrip.DecodeRawFormat | tools/src/engine/ScummV3Decoder.ts:133-164 | a 320 by 200 image of indices 0..15 with the strips of the advance-by-consumed-or-10 loop placed left to right, at most forty |
| RawStrip.SlicesAre200 | tools/src/engine/ScummV3Decoder.ts:137-153 | every strip is decoded 200 rows high |
| RawStrip.DecodeRawFormatRoundTrip | tools/src/engine/ScummV3Decoder.ts:133-164 | forty encoded strips laid end to end, each fitting its slice, decode to the image of those strips |
| EgaStrip.ReadCommand | tools/src/engine/ScummV3Decoder.ts:291-364 | a control sequence is one to three bytes and yields a well-formed run; a missing byte gives None, which happens only near the end of the data |
| EgaStrip.EncodeRunRoundTrip | tools/src/engine/ScummV3Decoder.ts:291-364 | every well-formed run is read back from its encoding whatever follows it |
| EgaStrip.DecodeStripV3 | tools/src/engine/ScummV3Decoder.ts:265-377 | an 8 by `h` block whose cells are all 0..15 |
| EgaStrip.DecodeStripV3Empty | tools/src/engine/ScummV3Decoder.ts:272 | empty strip data leaves the block at zero |
| EgaStrip.DecodeStripEga | tools/archive/decode_to_real_files.py:96-189 | the Python decoders that cut a run at column 8 yield an 8 by `h` block |
| EgaStrip.PaintBreakMatchesClip | tools/decode_objects_v3.py:44-136 | cutting a run at column 8 and clipping its writes there paint the same cells |
| EgaStrip.DecodeStripEgaIsDecodeStripV3 | decode_room_correct.py:29-101 | every guarded copy (`decode_strip_ega`, `decode_strip_v3`, `decode_strip_debug`, the guarded `drawStripEGA`) decodes exactly the block of `decodeStripV3` on every input |
| EgaRuns.DecodeStripV3Expands | tools/src/engine/ScummV3Decoder.ts:272-365 | the encoding of well-formed runs that fit the strip decodes to the column-major expansion: solid cells take the run's colour, copy cells the cell one column left (0 in column 0), and dither cells alternate high and low nibble |
| EgaRuns.DecodeClipCells | tools/src/engine/ScummV3Decoder.ts:286-365 | the decoding loop paints the cells of the runs still to be read, in order |
| EgaRuns.PaintClipCells | tools/src/engine/ScummV3Decoder.ts:308-363 | one run paints its cells in turn, each at the cursor, which then advances |
| EgaRuns.SolidExample | tools/src/engine/ScummV3Decoder.ts:345-363 | `[0x41]` in a 4-row strip fills column 0 with colour 1 and leaves the rest 0 |
| EgaRuns.DitherExample | tools/src/engine/ScummV3Decoder.ts:297-320 | `[0xC2, 0x21]` paints 2 then 1 |
| EgaRuns.CopyLeftExample | tools/src/engine/ScummV3Decoder.ts:321-343 | after `0x41` fills column 0 with colour 1, `0x81` copies that colour into row 0 of column 1 and leaves row 1 blank |
| EgaVariants.DrawStripUnguarded | decode_all_rooms.py:16-62 | when it does not raise, an 8 by `h` block of indices 0..15 |
| EgaVariants.DrawStripUnguardedSpec | decode_all_rooms.py:35-62 | it raises exactly when `h > 0` and some run reaches past column 7, and otherwise decodes the block of `decodeStripV3` |
| EgaVariants.DrawStripFlat | decode_strip_scummvm.py:27-137 | when it does not raise, an 8 by `h` block of indices 0..15 |
| EgaVariants.DecodeFlatNibbles | decode_strip_scummvm.py:47-127 | the flat-buffer run loop writes only 4-bit palette indices into a buffer that holds only such indices |
| EgaVariants.DrawStripFlatIsDecodeStripV3 | decode_strip_scummvm.py:47-127 | when every run ends within column 7 the flat-buffer port decodes the block of `decodeStripV3` |
| EgaVariants.DrawStripFlatCrash | decode_strip_scummvm.py:77-127 | it raises exactly when the first run past column 7 still has at least `h` pixels there (any pixel at all when `h = 0`) |
| EgaVariants.DrawStripFlatSpill | decode_strip_scummvm.py:34-127 | when it does not raise, it yields `decodeStripV3`'s block with the pixels the first overrunning run places past column 7 written into column 0 of rows 1, 2, ... |
| EgaVariants.FlatSpillExample | decode_strip_scummvm.py:77-127 | at column 7, row 1 of a 2-row strip, a 2-pixel run's second pixel lands on row 1 of column 0 |
| EgaVariants.DrawStripWithOffset | decode_strip_with_offset.py:30-141 | None exactly under 5 bytes; otherwise an 8 by `h` block whose rows above `src[4]` are 0 |
| EgaVariants.DrawStripWithOffsetZero | decode_strip_with_offset.py:39-131 | with a row offset of 0 it decodes the data after byte 4 as the flat-buffer port does |
| EgaVariants.DrawStripWithOffsetCrash | decode_strip_with_offset.py:86-131 | it raises exactly when the offset row is inside the strip and the first run past column 7 has as many pixels left as rows from the offset down; an offset at or past the height gives the zero block |
| EgaVariants.DecodeStripWithOffset | test/decode_full_room_with_offset.py:27-114 | None exactly under 5 bytes; otherwise an 8 by `h` block of indices 0..15 |
| EgaVariants.DecodeStripWithOffsetZero | test/decode_full_room_with_offset.py:32-114 | with a row offset of 0 it is the unguarded grid decoder on the data after byte 4 |
| EgaVariants.DecodeStripWithOffsetCrash | test/decode_full_room_with_offset.py:66-112 | it raises exactly when the first run past column 7 wraps to a row inside the strip: row `src[4]` for a solid run, row 0 for dither and copy runs |
| EgaVariants.DecodeStripWithOffsetAbove | test/decode_full_room_with_offset.py:71-112 | unless a dither or copy run wraps a column back to row 0, the rows above `src[4]` stay 0 |
| EgaVariants.OffsetWrapExample | test/decode_full_room_with_offset.py:66-74 | with offset 1, a dither run that wraps paints row 0, which the flat offset port leaves 0 |
| EgaVariants.UnguardedCrashExample | decode_all_rooms.py:35-62 | seventeen pixels in a 2-row strip make the unguarded grid copy raise |
| EgaVariants.SlotsClosedForm | decode_all_rooms.py:35-62 | the cells left before column 8 from (`x`, `y`) are `(8 - x) h - y` |
| OffsetTable.ReadTable | tools/src/engine/ScummV3Decoder.ts:60-96 | at most `maxEntries` offsets, each inside the data, above the bias and at or above the minimum, and strictly increasing when the policy asks for it |
| OffsetTable.ReadTableExact | tools/src/engine/ScummV3Decoder.ts:60-96 | the table is exactly the longest run of accepted words after an optional skipped zero word, and the word after it is rejected |
| OffsetTable.ReadTableAll | decode_all_rooms_correct.py:84-93 | a reader that accepts all of its words returns all of them |
| OffsetTable.ReadTableShorter | test/decode_room_correct.py:84 | reading at most `m` words gives a prefix of the longer table, and the same table when that stops before word `m` |
| OffsetTable.SmapPolicy | decode_all_rooms_correct.py:84-93 | SMAP entries are read after the 2-byte size field, relative to the block start, ending at zero or past the data, with no order check |
| ObjectImage.Padding | tools/src/engine/ScummV3Decoder.ts:18-21 | the offset of the first non-zero byte, or the length when there is none |
| ObjectImage.Classify | tools/src/engine/ScummV3Decoder.ts:25-55 | the raw path when the first word exceeds the remaining size; otherwise the table starts at the word's offset when it is below 1000 and below the remaining size (minimum offset 0), else two bytes on (minimum offset the table start) |
| ObjectImage.EstimateHeight | tools/src/engine/ScummV3Decoder.ts:383-394 | 64, 88 or 128 when the size is below 80, 150 or 250 bytes per strip, else 144 |
| ObjectImage.RatioBelow | tools/src/engine/ScummV3Decoder.ts:386-390 | the floating test `n / s < k` is the integer test `n < k s` |
| ObjectImage.EstimateHeightMonotone | tools/src/engine/ScummV3Decoder.ts:383-394 | a larger object never gets a smaller estimated height |
| ObjectImage.DecodeObjectImage | tools/src/engine/ScummV3Decoder.ts:10-128 | null exactly for fewer than eight bytes; every other input gives an image of palette indices |
| ObjectImage.DecodeObjectImageTable | tools/src/engine/ScummV3Decoder.ts:56-121 | on the table path the offsets rise strictly inside `[minOffset, length)`, the image is `8N` wide with the estimated height, and strip `i` sits at columns `8i ..` |
| ObjectImage.DecodeObjectImageOtherPaths | tools/src/engine/ScummV3Decoder.ts:25-50 | the raw path is the 320 by 200 raw format of the bytes after the padding, and padding-only data or an empty table gives the fallback |
| ObjectImage.ContainerWidthReadAsOffset | tools/src/engine/ScummV3Decoder.ts:30-79 | a repackaged container whose width is below 1000 with a non-zero low byte has that width read as its first strip offset |
| ObjectImage.DecodeObjectImagePy | decode_room_correct.py:103-205 | `(None, None, None)` for the raw path, padding-only data and an empty table; otherwise an image of the requested height |
| ObjectImage.PortMatchesDecoder | decode_room_correct.py:103-205 | the port returns an image exactly when the TypeScript decoder takes its table path, and the same image when given the estimated height |
| ObjectProbe.TryDecodeWithHeaderSize | tools/decode_objects_v3.py:139-216 | None for data shorter than the header plus four or an empty table; else `N` strips `8N` wide, 64, 48 or the default height by length |
| ObjectProbe.ProbeTable | tools/decode_objects_v3.py:148-208 | the offsets rise strictly inside `[headerSize + 2, length)` and strip `i` is the bytes from offset `i` to the next, placed at columns `8i ..` |
| ObjectProbe.FirstProbeIsFirst | tools/decode_objects_v3.py:234-252 | the first header size whose probe succeeds is returned, and None exactly when none does |
| ObjectProbe.DecodeObjectSmart | tools/decode_objects_v3.py:219-252 | `None` for every object the caller skips: fewer than 16 bytes, exactly 19 bytes, or up to 20 bytes starting with 16 zeros; a probe found uses one of the tried header sizes |
| ObjectProbe.DecodeObjectSmartOrder | tools/decode_objects_v3.py:219-252 | the result is the first successful probe in the order 8, 0, 2, 4, 6, tagged with its format, and None exactly for skipped objects and objects no header fits |
| ObjectProbe.ZeroObjectFailsEveryProbe | tools/decode_objects_v3.py:230-231 | the all-zero test changes nothing: every probe of such an object fails anyway |
| ObjectProbe.DecodeObjectWithStrips | tools/archive/decode_object_v2.py:138-205 | `(None, None, None)` for an empty table, else `N` strips `8N` wide and the given height |
| ObjectProbe.DecodeObjectWithStripsLayout | tools/archive/decode_object_v2.py:159-203 | the strips tile the data from the first offset to the end, and strip `i` sits at columns `8i ..` |
| ObjectProbe.DefaultWidth | tools/archive/decode_object_test.py:162-167 | one strip per 20 bytes, at least one and at most eight |
| ObjectProbe.EqualSplitTiles | tools/archive/decode_object_test.py:182-197 | the chunks tile the data after the header: nothing dropped or read twice |
| ObjectProbe.EqualSplitBalanced | tools/archive/decode_object_test.py:191-193 | every chunk has `q` or `q + 1` bytes when the data lies between `q` and `q + 1` bytes per strip |
| ObjectProbe.DecodeObjectTest | tools/archive/decode_object_test.py:139-199 | an image of palette indices of the given size, or of the default width and height 32 |
| ObjectProbe.DecodeObjectTestLayout | tools/archive/decode_object_test.py:179-197 | chunk `i` sits at columns `8i ..`; the chunks tile the data after the header with `q` or `q + 1` bytes each |
| StripTable.StripBytes | tools/archive/decode_to_real_files.py:86-89 | strip `i` is the bytes from its offset to the next one, or to the end for the last, and is empty when the next offset is not above it |
| StripTable.Shown | decode_all_rooms_correct.py:107 | `min(N, width / 8)` strips are drawn, the ones that fit the width whole |
| StripTable.StripsTile | tools/archive/decode_to_real_files.py:86-91 | with strictly increasing offsets the strips tile the data from the first offset to the end |
| Container.MaxStrips | tools/server.ts:27-30 | at most 200; below 200, enough 8-column strips to cover the width and no more than needed |
| Container.ExtractRoomImage | tools/server.ts:21-121 | a packed container has the room's width and height, one entry per strip and length `4 + 2N` plus the bytes from the first strip to the end |
| Container.ExtractRoomImageNull | tools/server.ts:22-66 | null exactly for rooms under 10 bytes, a SMAP pointer past the data, or an empty strip table |
| Container.ExtractRoomImageThrows | tools/server.ts:76-116 | it throws exactly when a strip table of N entries points more than `4 + 2N` bytes behind its first strip, so a write position is negative; the allocation itself never fails because the sizes add up |
| Container.RunningTelescopes | tools/server.ts:76-106 | the running offset of strip `i` is `4 + 2N` plus its distance from the first strip |
| Container.EntryAt | tools/server.ts:100-106 | entry `k` holds the low 16 bits of strip `k`'s running offset |
| Container.ExtractRoomImageLayout | tools/server.ts:91-116 | with increasing starts the container is the header, the entries, then the room from the first strip on verbatim |
| Container.ExtractRoomImagePy | decode_all_resources_complete.py:17-95 | an IndexError exactly for rooms of 10 or 11 bytes; a packed result has the room's size and one entry per strip |
| Container.PortMatchesRepackager | decode_all_resources_fixed.py:17-95 | on rooms of 12 bytes or more the Python copy gives the TypeScript result wherever that does not throw, and still packs where it throws |
| Container.CopyStripsAgree | decode_all_resources_complete.py:86-93 | wherever the TypeScript copy loop does not throw, the Python slice assignments write the same bytes |
| Container.CopyStripsInOrder | tools/server.ts:108-116 | with increasing starts the copy loop never throws and fills the buffer |
| Container.DecodeScummImage | tools/archive/decode_to_real_files.py:54-93 | None exactly for fewer than 8 bytes, a width outside 1..2000, a height outside 1..300 or an empty table; otherwise a width by height image of indices 0..15 |
| Container.RoundTrip | tools/archive/decode_to_real_files.py:67-91 | reading a repackaged room (increasing starts, `ceil(width / 8)` strips, container below 65536 bytes) gives the image of the room's own strips |
| Container.TableReads | tools/archive/decode_to_real_files.py:67-78 | every entry of a container below 65536 bytes is read as the moved start of its strip |
| Container.BlocksMoved | tools/archive/decode_to_real_files.py:86-91 | the blocks decoded from the container are the blocks of the room's strips |
| RoomImage.DecodeRoomCorrect | decode_all_rooms_correct.py:68-124 | raises exactly below 12 bytes or when a non-empty table meets an empty picture; `False` exactly for an empty table; else a picture of the header's positive width and height |
| RoomImage.DecodeRoomCorrectTable | decode_all_rooms_correct.py:79-120 | strip `i` of the SMAP table is drawn at columns `8i ..` for every strip that fits the width, each start being the SMAP offset plus its word |
| RoomImage.DecodeRoom01 | test/decode_room_correct.py:73-121 | never `False`, as there is no test for an empty table; raises exactly below 8 bytes or for an empty picture; else a picture of the header's width and height |
| RoomImage.Room01MatchesDecodeRoom | test/decode_room_correct.py:80-117 | on a room whose SMAP word is 0x0135 and whose table ends before 100 entries, the script draws what `decode_room` draws |
| RoomImage.GapSumTelescopes | decode_all_rooms.py:98 | the gaps add up to the distance from the first to the `m`-th entry |
| RoomImage.LooksLikeStripsIff | decode_all_rooms.py:97-100 | a candidate passes exactly when it has three or more entries and its `m`-th entry lies more than `10m` and less than `5000m` bytes after the first, `m = min(5, N - 1)` |
| RoomImage.FindStripsIsFirst | decode_all_rooms.py:87-102 | the candidate of the first resource offset that passes is chosen, and none exactly when none passes |
| RoomImage.DecodeAllRooms | decode_all_rooms.py:66-138 | an IndexError exactly below 8 bytes; a drawn picture holds palette indices and has the header's height |
| RoomImage.HeuristicBlock | decode_all_rooms.py:121-138 | each strip is `decodeStripV3`'s block, except that a strip with a run past column 7 stays zero |
| RoomImage.DecodeAllRoomsLayout | decode_all_rooms.py:104-138 | the picture places the heuristic blocks of the chosen candidate side by side |
| RoomObjects.WordsAt | extract_objects_v3.py:72-78 | up to `n` little-endian words from a position, as many as fit in the data |
| RoomObjects.ExtractObjects | extract_objects_v3.py:15-122 | None exactly under 32 bytes or without an OBIM offset; one entry per OBIM offset with its id, its offset inside the data and its OBCD word (0 past the end) |
| RoomObjects.ObjectEntry | extract_objects_v3.py:72-92 | entry `i` has id `i`, the `i`-th OBIM offset, and as OBCD offset the word as many places further on as there are OBIM offsets, or 0 once the OBCD loop has run out of data |
| RoomObjects.WordsAtIndex | extract_objects_v3.py:73-78 | the OBCD loop reads word `i` exactly when both of its bytes are inside the data |
| RoomObjects.ObjectSizes | extract_objects_v3.py:94-106 | an image ends inside the data at the next OBIM offset (size 0 when that is not further on), or for the last object at its OBCD offset when further on, else 100 bytes on |
| RoomObjects.ObimSizesTile | extract_objects_v3.py:94-106 | with increasing OBIM offsets the images before the last one span the first offset to the last |
| Resources.TableWordsReads | decode_all_resources_complete.py:110-117 | entry `i` of a table read from `pos` (0x0A for resources) is the little-endian word at `pos + 2i`, which lies inside the room and is not zero |
| Resources.TableWordsEnds | decode_all_resources_complete.py:110-116 | a table with fewer entries than its limit (50 for resources) stops at a zero word or where a whole word no longer fits |
| Resources.IndicesOf | decode_all_resources_complete.py:120-124 | the indices of table entries that hold an offset, in table order |
| Resources.GroupsPartition | decode_all_resources_complete.py:120-126 | every table index lies in exactly one group, the one of its own offset |
| Resources.Classify | decode_all_resources_complete.py:135-152 | index 0 is the background; over 1000 bytes graphics; strictly between 100 and 1000 sounds or scripts by the non-zero count; anything else unknown |
| Resources.Extract | decode_all_resources_complete.py:103-161 | one resource per distinct offset, ascending, each with the indices sharing it and size up to the next offset or the end |
| Resources.ExtractAllResources | decode_all_resources_complete.py:98-163 | a bare empty list under 10 bytes, else the resources with the width and height |
| Resources.RoomResourcesAsWritten | decode_all_resources_complete.py:187-196 | the caller fails below 10 bytes, from the header read or from unpacking the bare list |
| Resources.NineByteRoomFails | decode_all_resources_complete.py:100-101 | a 9-byte room has readable header words, yet the caller fails to unpack |
| Resources.RoomResources | decode_all_resources_complete.py:98-163 | the caller fails exactly below 8 bytes; from 10 bytes on the resources are those of the code as written, and a room under 12 bytes has none |
| Resources.SizesCoverRoom | decode_all_resources_complete.py:129-131 | the sizes add up to the room's length less the lowest offset |
| Resources.OneBackground | decode_all_resources_complete.py:135-137 | a non-empty table gives exactly one background, at the first table offset |
| Resources.BackgroundIffIndexZero | decode_all_resources_complete.py:135-137 | a resource is the background exactly when index 0 is in its group |
| Resources.ResourcesJson | decode_all_resources_complete.py:268-296 | the number of rooms, of resources, and of each key among the resource types |
| Resources.CountsPlusSkipped | decode_all_resources_fixed.py:225-230 | types outside the keys are skipped: the counts plus those add up to the number of resources |
| Resources.ExtractedTypesAllCounted | decode_all_resources_complete.py:271-285 | every type the extractor assigns is a key, so the counts add up to the number of resources |
| Blocks.BlockEnd | tools/extract_resources.py:61-72 | a block is at least 100 and under 60000 bytes and ends inside the data |
| Blocks.BlockEndIsFirstZeroWindow | tools/extract_resources.py:64-68 | the end is the first zero window in `i + 100 .. min(i + 60000, len) - 1`, or `i + 100` when none |
| Blocks.FindBlockBoundaries | tools/extract_resources.py:49-78 | every block is 100 to 59999 bytes long and lies inside the data |
| Blocks.ScanIsBlockList | tools/extract_resources.py:54-76 | blocks start at dense positions in increasing order, do not overlap, and every skipped position is sparse |
| Blocks.BlockListUnique | tools/extract_resources.py:54-76 | those properties determine the list: any list with them is the scanner's |
| Blocks.Occurrences | tools/extract_resources.py:154-155 | the number of resources of a type, at most their total, and zero exactly when none has that type |
| Blocks.CountKinds | tools/extract_resources.py:154-155 | a type outside the five names raises `KeyError` |
| Blocks.BumpGet | tools/extract_resources.py:155 | adding one resource raises the count of its own type by one and leaves the other counts alone |
| Blocks.CountKindsCounts | tools/extract_resources.py:146-155 | each count is the number of resources of that type, and together they count every resource |
| Blocks.CreateSummary | tools/extract_resources.py:130-174 | one entry per file with its total and counts; None when a type raises |
| Blocks.SummaryCounts | tools/extract_resources.py:145-174 | the grand counts are the per-type counts over all files and add up to the total |
| Palette.DefaultPaletteShape | tools/src/engine/PaletteManager.ts:12-29 | sixteen distinct entries on the 6-bit scale |
| Palette.Reset | tools/src/engine/PaletteManager.ts:106-110 | the palette is the default table again |
| Palette.LoadPalette | tools/src/engine/PaletteManager.ts:40-61 | 48 bytes give sixteen raw triples, 16 bytes pick default colour `data[i] % 16`, any other length changes nothing |
| Palette.LoadSerializedRoundTrip | tools/src/engine/PaletteManager.ts:44-52 | loading a palette's 48-byte form restores it, whatever was current |
| Palette.IdentityTableLoadsDefault | tools/src/engine/PaletteManager.ts:53-59 | the index table `0 .. 15` loads the default palette |
| Palette.EgaToRgb | tools/src/engine/PaletteManager.ts:66-68 | the largest value whose product with 63 is at most `v * 255` |
| Palette.EgaToRgbRange | tools/src/engine/PaletteManager.ts:66-68 | 0 maps to 0, 63 to 255, 0..63 stays inside 0..255, and 64 leaves it |
| Palette.EgaToRgbIncreasing | tools/src/engine/PaletteManager.ts:66-68 | strictly increasing, so distinct levels stay distinct |
| Palette.GetColorRgba | tools/src/engine/PaletteManager.ts:84-92 | entry `index % 16` with channels scaled and alpha 255; a negative index that selects no entry throws |
| Palette.GetColorRgbaPeriodic | tools/src/engine/PaletteManager.ts:84-92 | indices repeat every 16, and on 6-bit levels every channel is 0..255 |
| Palette.RawTableEscapesRange | tools/src/engine/PaletteManager.ts:44-52 | a raw triple with a byte above 63 gives a channel above 255 |
| Script.NewInterp | tools/src/engine/ScriptInterpreter.ts:56-63 | no script, 256 zero variables, room 1, stopped |
| Script.LoadScript | tools/src/engine/ScriptInterpreter.ts:68-75 | the code loaded with counter 0 and an empty stack; variables, room and running flag kept |
| Script.Reset | tools/src/engine/ScriptInterpreter.ts:217-221 | counter 0, empty stack, stopped, code kept |
| Script.Stop | tools/src/engine/ScriptInterpreter.ts:210-212 | the running flag is cleared and nothing else changes |
| Script.SetVariable | tools/src/engine/ScriptInterpreter.ts:196-198 | that variable gets the value and no other changes |
| Script.GetVariable | tools/src/engine/ScriptInterpreter.ts:203-205 | the stored value, or `undefined` for a missing key |
| Script.ReadByte | tools/src/engine/ScriptInterpreter.ts:165-170 | the byte at the counter, which moves past it; 0 and no move at the end |
| Script.ReadWordReads | tools/src/engine/ScriptInterpreter.ts:175-179 | the little-endian word at the counter when both bytes are there, missing bytes reading 0; the counter moves past the bytes present |
| Script.Execute | tools/src/engine/ScriptInterpreter.ts:109-157 | the code is kept; only STOP_SCRIPT clears the running flag, only SET_VAR changes variables, only GET_VAR pushes, only LOAD_ROOM changes the room, and an unknown opcode changes nothing (the counter per opcode is stated by StepEffect) |
| Script.Step | tools/src/engine/ScriptInterpreter.ts:80-89 | false and no change without a byte at the counter; else one opcode consumed and executed, answering the running flag |
| Script.VarsStayDefined | tools/src/engine/ScriptInterpreter.ts:118-132 | variables 0..255 stay defined, so GET_VAR always finds its variable |
| Script.StepEffect | tools/src/engine/ScriptInterpreter.ts:110-170 | the counter moves over the opcode and its operands, JUMP setting it to its operand; only SET_VAR changes a variable, only GET_VAR pushes, only LOAD_ROOM sets the room, only STOP_SCRIPT clears the running flag |
| Script.Run | tools/src/engine/ScriptInterpreter.ts:94-105 | at most `maxSteps` counted steps; what each step did is stated by RunLoopIsSteps |
| Script.RunLoopIsSteps | tools/src/engine/ScriptInterpreter.ts:98-102 | each counted step answered true, and the run ends at the limit or after a step that answered false |
| Script.RunSetVarThenStop | tools/src/engine/ScriptInterpreter.ts:114-123 | a script setting variable 5 to 0x1234 and stopping counts one step |
| Script.RunJumpLoop | tools/src/engine/ScriptInterpreter.ts:134-138 | a script jumping to itself runs to the step limit |
| Midi.HeaderChunk | convert_to_standard_midi.py:25-30 | `MThd`, length 6, format 0, one track, 480 ticks: 14 bytes |
| Midi.CreateStandardMidi | convert_to_standard_midi.py:21-42 | the header chunk, `MTrk`, a length four more than the data, the data verbatim from byte 22 and End-of-Track |
| Midi.StandardMidiRoundTrip | convert_to_standard_midi.py:21-42 | every file written reads back as its input |
| Midi.TrackLengthCountsEndOfTrack | convert_to_standard_midi.py:34-39 | the track length is always the data length plus four |
| Midi.CreateMidiHeader | convert_sounds_to_midi.py:25-40 | 22 bytes: the header chunk, `MTrk` and the track length, without the track |
| Midi.HeaderThenTrackIsStandardMidi | convert_sounds_to_midi.py:25-40 | the header followed by the track is the standard file once the track ends with End-of-Track |
| Midi.AddRoTag | convert_sounds_to_midi.py:43-48 | "RO" in front: two bytes longer, with the input as suffix |
| Midi.RoTagRoundTrip | convert_sounds_to_midi.py:43-48 | stripping the tag gives the input back |
| Midi.StripRoTagInverse | convert_sounds_to_midi.py:43-48 | every tagged file is the tag on its stripped data |
| Midi.AnalyzeRolandData | convert_sounds_to_midi.py:79-96 | nothing for empty data; else the size, the first 32 bytes, and the counts of distinct values, zeros and high-bit bytes |
| Midi.RolandStatsBounds | convert_sounds_to_midi.py:86-93 | zeros and high bytes together are at most the size, and distinct values are between 1 and `min(size, 256)` |
| Sniff.Strip | analyze_resources.py:17 | the text without leading and trailing blanks, neither starting nor ending with one |
| Sniff.StripKeeps | analyze_resources.py:17 | text that neither starts nor ends with a blank is left as it is, so stripping is idempotent |
| Sniff.AsciiOnlyKeepsAscii | analyze_resources.py:17 | decoding as ASCII while ignoring errors leaves text of bytes below 0x80 unchanged |
| Sniff.IdentifySoundFormat | analyze_resources.py:11-38 | too small under 8 bytes; SPK/ADL/ROL tags by name; else AdLib with 0xBD in the first 20 bytes, PC Speaker with fewer than 5 distinct values there, else unknown |
| Sniff.PaddedTagExample | analyze_resources.py:17-25 | a tag padded with blanks is recognised |
| Sniff.ZeroAfterTagExample | analyze_resources.py:17-25 | a tag followed by a zero byte is not |
| Sniff.HighByteDroppedExample | analyze_resources.py:17-25 | bytes above 0x7F vanish before the comparison |
| Sniff.Samples | analyze_resources.py:54-56 | the bytes at 0, 4, 8, .. below `min(50, len)` |
| Sniff.FreqExact | analyze_resources.py:53-57 | the frequency table counts every sampled value exactly, keyed in order of first appearance |
| Sniff.TopIdx | analyze_resources.py:60 | the first `k` entries of the stable descending sort by count |
| Sniff.AnalyzeScriptHeader | analyze_resources.py:41-62 | nothing under 16 bytes; else the size, the first opcode and up to three most frequent sampled opcodes |
| Sniff.TopOfFreq | analyze_resources.py:53-60 | the opcodes chosen rank highest by count, earlier first appearance breaking ties |
| Sniff.ScriptHeaderExample | analyze_resources.py:53-60 | samples 1, 2, 2, 3 give 2 first, then 1 and 3 in the order they appear |

## Left out

- The file and network I/O: reading `.LFL` files, `Bun.serve` routing, JSON dumps, PNG writing, directory creation, console and print output. Each decoder takes the decrypted bytes as a parameter.
- Room names and file stems, the hex previews (`preview.hex(' ')` and the first 64 bytes shown by `decode_object_test.py`), and the `format` tag strings of `decode_object_smart` (the order of the probes is modelled, the tag is not).
- `calculate_entropy` and `classify_resource` in `tools/extract_resources.py`: floating-point logarithms. `Blocks.CreateSummary` takes each resource's type name as given.
- The classifier inside `process_all_rooms` of `decode_all_resources_fixed.py`: the counting over six keys is modelled by `Resources.ResourcesJson` with any key list, and the type names are taken as given.
- The "format A" test of `decodeObjectImage` and its Python port: it only feeds a log line.
- `getColor` (a formatted CSS string of the same three channels as `getColorRGBA`), `getPalette` and `getGameState`: with immutable values a copy is the value itself.
- The `flags` and `actorPositions` of the script state: no opcode touches them.
- The ordering of `sorted(all_files_data.items())` in `create_summary`: the files' items are taken in the order given.
- The try/catch around `decodeObjectImage`: every path of the model is total, and where the TypeScript would throw the model routes to the same fallback.
- The canvas, audio and game-engine files: presentation and orchestration.
- EgaRuns.DecodeStripV3Expands: stated for the exact encoding of well-formed runs whose pixels fit the `8h` cells; data that ends mid-command or runs past column 7 are covered by `DecodeStripV3`'s own shape contract and by the lemmas of `EgaVariants`.
- Container.RoundTrip: requires strictly increasing strip starts, `ceil(width / 8)` strips, and a container below 65536 bytes. Larger containers have their entries truncated to 16 bits (stated by `Container.EntryAt`), and the reader then sees other offsets.
- RawStrip.DecodeRawFormatRoundTrip: stated for forty strips that each fit their slice of at most 300 bytes; a strip that does not fit is cut at the slice.
- Rle.DecompressRleRoundTrip: stated for packets of 1 to 128 output bytes each, the only ones a control byte can describe, and for a limit no smaller than their output; a stream cut inside a packet is not covered.
- RoomImage.Room01MatchesDecodeRoom: stated for rooms whose table stops before 100 entries and that `decode_room` draws; the two scripts differ on the others by design.
- ObjectImage.PortMatchesDecoder: equal images are stated when the port is given the TypeScript's estimated height; with another height the port's image differs only in its number of rows.

## Findings

| source | as written | input that shows it | evidently intended | confidence | as-written member | corrected member |
|---|---|---|---|---|---|---|
| decode_all_resources_complete.py:100-101 | `extract_all_resources` returns a bare `[]` under 10 bytes, while `process_all_rooms` (line 196) unpacks three values from it | a decrypted room of 9 bytes: the header read at lines 187-188 succeeds, the unpack raises ValueError | return `[]` with the width and height, so a short room has no resources | not executed | Resources.RoomResourcesAsWritten, Resources.NineByteRoomFails | Resources.RoomResources |
