# volrenderer core in Dafny

volrenderer is a Qt/OpenGL volume renderer. It reads a voxel volume from a
file, rescales the samples, and shows the volume in three widgets. A 3-D
ray-cast view can be turned with the mouse. A slice view shows one z-slice.
A transfer-function editor (the LUT) maps densities to colours.

This project models the integer and byte-level core of the renderer and
proves properties of it:

- **The DDS codec of Formats/DDSLoader.cpp.** This comprises:
  - the bit reader over a zero-padded payload, whose process globals become the fields of the class `DdsBits.BitCursor`;
  - the width codes;
  - the differential stream decoder with its strip-back predictor;
  - the byte-plane interleave in its global and windowed modes.

  The specification of the decoder is a chain of functions: bit positions, then runs of deltas, then the byte recurrence, then the permutation.
- **The readers of Formats/DDSLoader.cpp.** These are:
  - the signature check of readDDSfile and its fallback to the raw bytes;
  - readPNMimage, the Netpbm P5/P6 header parser;
  - readPVMvolume, the PVM, PVM2 and PVM3 container parser;
  - swapshort.

  Each reader works on the file's bytes held in a sequence. Each has three outcomes: a value, `NotThisFormat` (the C code's `return(NULL)`) and `Fatal` (the C code's `ERRORMSG()`, which ends the process).
- **The sample handling of Formats/Loader.cpp and Formats/Loader.h.** This covers sample assembly in either byte order, the min/max scan, the conversion loop of normalizeData, getDimensions and setLinearize.
- **Voxel addressing in Volume.cpp and Volume.h.** This covers clamped 3-D indexing, the single-index overloads, slices, densities, setVolData and the bytes-per-cell rounding.
- **The state kept by the three widgets:**
  - the 4096-entry colour table, histogram maximum and brush of Widgets/LutWidget.cpp;
  - the slice index and grey table of Widgets/SliceWidget.cpp;
  - the rotation angles and light switch of Widgets/VolRenderer.cpp.
- **The compile-time binary literal `_b` of common.h.**

The C++ integer types are modelled as follows:

- `byte` is 0..255.
- `u32` is unsigned int, 0..2^32-1.
- An unsigned product that can wrap is reduced modulo 2^32 with `Wrap32`.
- A signed reinterpretation is written out with `AsSigned`.
- Shifts and masks on the 32-bit bit-reader register are modelled with explicit arithmetic and with bit-by-bit `BitOr` and `BitAnd`.

The code is imperative in most places. Where it is, the model is imperative as well:

- Loops are `method`s with invariants.
- Objects whose fields change are `class`es.
- Buffers worked on in place are `array`s.

Each method is proved against a specification function. The properties are then proved about those functions.

The strip predictor of the DDS decoder applies only once more than `strip`
bytes have been produced (the `cnt<=strip` test, Formats/DDSLoader.cpp:226);
`DdsDecode.RebuildAt` states this rule.

## Model

| member | source | states |
|---|---|---|
| Machine.ShiftL | Formats/DDSLoader.cpp:55-56 | DDS_shiftl: a shift by 32 or more yields 0, and a shift by 0 keeps the value |
| Machine.ShiftR | Formats/DDSLoader.cpp:58-59 | DDS_shiftr: the result is never above the value, and a shift by 32 or more yields 0 |
| Machine.ShiftLValue | Formats/DDSLoader.cpp:55-56 | a left shift below 32 bits is multiplication by 2^bits modulo 2^32 |
| Machine.ShiftRValue | Formats/DDSLoader.cpp:58-59 | a right shift is division by 2^bits, also for 32 bits or more |
| Machine.ShiftLFits | Formats/DDSLoader.cpp:55-56 | a left shift whose product fits in 32 bits is that product |
| Machine.BitOrDisjoint | Formats/DDSLoader.cpp:118 | OR of a value shifted left by k with a value below 2^k is their sum |
| Machine.BitAndMask | Formats/DDSLoader.cpp:121 | AND with 2^k - 1 keeps exactly the low k bits (the value modulo 2^k) |
| Machine.Wrap32 | Formats/DDSLoader.cpp:433-434 | conversion to unsigned int: congruent modulo 2^32, identity on 0..2^32-1 |
| Machine.AsSigned | Widgets/SliceWidget.cpp:19 | the (int) cast of an unsigned value: in the int range and congruent modulo 2^32 |
| CText.CString | Formats/DDSLoader.cpp:467-468 | the C string at a position: a NUL-free slice of the buffer ending at a NUL or the buffer's end |
| CText.Find | Formats/DDSLoader.cpp:484-485 | a byte-by-byte search that does not stop at NUL: the first match, with no match before it, or none at all |
| CText.StrChr | Formats/DDSLoader.cpp:479 | strchr: the first occurrence of the byte before the string's NUL, and no result only when the byte does not occur before that NUL |
| CText.StrLen | Formats/DDSLoader.cpp:506-509 | strlen: the count of non-NUL bytes up to the first NUL or the end |
| CText.SkipSpace | Formats/DDSLoader.cpp:477 | a whitespace directive: the first non-space index, with only spaces skipped |
| CText.DigitsEnd | Formats/DDSLoader.cpp:487 | the end of a run of decimal digits, which contains only digits |
| CText.DigitsValue | Formats/DDSLoader.cpp:487 | the decimal value of a digit run, positive when it starts with a non-zero digit |
| CText.ScanInt | Formats/DDSLoader.cpp:487 | %d: it consumes at least one digit and stops just after the last digit of the run |
| CText.ScanDigit | Formats/DDSLoader.cpp:395 | %1d: one digit, valued 0..9 |
| CText.ScanFloat | Formats/DDSLoader.cpp:477 | %g: a non-empty field kept as its characters |
| CText.DanglingExponentFails | Formats/DDSLoader.cpp:477 | %g fails on digits followed by an 'e' or 'E' with no exponent digits, as "3e" in "1 1 3e\n" |
| CText.ScanInts | Formats/DDSLoader.cpp:477 | a run of %d conversions yields exactly n values, or fails |
| CText.ScanFloats | Formats/DDSLoader.cpp:477 | a run of %g conversions yields exactly n fields, or fails |
| CText.Decimal | Formats/DDSLoader.cpp:487 | the decimal rendering of a number: non-empty and all digits |
| CText.ScanIntReadsDecimal | Formats/DDSLoader.cpp:487 | %d after white space reads back the decimal rendering of any number |
| CText.ScanIntDigits | Formats/DDSLoader.cpp:424 | %d over white space and a digit run reads the run's value and stops at its end |
| CText.DigitsValueOf | Formats/DDSLoader.cpp:487 | the digits of Decimal(n) are worth n wherever they sit |
| CText.CStringsShift | Formats/DDSLoader.cpp:505-509 | a run of NUL-terminated strings keeps its shape in a slice that contains it |
| CText.ScanFloatReadsDecimal | Formats/DDSLoader.cpp:477 | %g after white space reads a whole number's decimal rendering as its field |
| CText.DecimalPositive | Formats/DDSLoader.cpp:478 | the rendering of a number of at least 1 passes the scales' positivity test |
| DdsBits.BitsBound | Formats/DDSLoader.cpp:96-124 | an n-bit field of the payload is below 2^n |
| DdsBits.BitsSplit | Formats/DDSLoader.cpp:96-124 | an (m+n)-bit read equals an m-bit read followed by an n-bit read: the reads are consecutive bits |
| DdsBits.BitsHighLow | Formats/DDSLoader.cpp:100-104 | the top m bits and the low n bits of an (m+n)-bit field are its m-bit and n-bit parts |
| DdsBits.BitsPastEnd | Formats/DDSLoader.cpp:109 | every field past the end of the payload reads 0 |
| DdsBits.ByteBits | Formats/DDSLoader.cpp:96-124 | the first n bits of a byte are the byte shifted right by 8 - n (most significant bit first) |
| DdsBits.WordBits | Formats/DDSLoader.cpp:112-113 | a big-endian word read at byte q is the 32-bit field at bit 8q |
| DdsBits.SwapUintReadsBigEndian | Formats/DDSLoader.cpp:61-69 | on a little-endian host the native load followed by DDS_swapuint is the big-endian word, and back |
| DdsBits.Pad | Formats/DDSLoader.cpp:84-94 | DDS_loadbits: the payload followed by fewer than 4 zero bytes up to a multiple of 4 |
| DdsBits.PadBits | Formats/DDSLoader.cpp:90-92 | the zero padding does not change any field of the bit string |
| DdsBits.BitCursor.constructor | Formats/DDSLoader.cpp:71-94 | DDS_initbuffer, DDS_clearbits and DDS_loadbits: the cursor is valid, nothing consumed, the cache is the padded payload |
| DdsBits.BitCursor.ReadBits | Formats/DDSLoader.cpp:96-124 | DDS_readbits(bits): the next `bits` bits of the payload as a big-endian number; the register invariant (value below 2^bufsize, bufsize in 0..32) is kept |
| DdsBits.BitCursor.TakeHeld | Formats/DDSLoader.cpp:100-104 | the branch where the register holds more bits than asked: the top ones are returned and the rest stay |
| DdsBits.BitCursor.TakeRefilled | Formats/DDSLoader.cpp:105-121 | the refill branch: the held bits and the top of the next word (0 past the cache) make up the result |
| DdsBits.LoadWord | Formats/DDSLoader.cpp:109-115 | the next cache word, or 0 once the cache is used up, is the 32-bit field at the next position |
| DdsBits.FromRegister | Formats/DDSLoader.cpp:102-103 | the register's top bits are the result and the mask keeps the unread rest |
| DdsBits.RefillValue | Formats/DDSLoader.cpp:107-118 | OR of the shifted held bits and the top of the fresh word is the requested field |
| DdsBits.LowBits | Formats/DDSLoader.cpp:121 | `DDS_buffer &= DDS_shiftl(1,DDS_bufsize)-1` keeps the low bufsize bits, also for a 32-bit mask |
| DdsBits.MaskValue | Formats/DDSLoader.cpp:121 | DDS_shiftl(1, n) - 1 as an unsigned int is 2^n - 1 for n up to 32 |
| DdsBits.ExhaustedReadsZero | Formats/DDSLoader.cpp:109 | once the consumed bits reach the end of the payload, every read yields 0 |
| DdsDecode.DecodeWidth | Formats/DDSLoader.cpp:129-130 | DDS_decode(int) never yields 1, and a 3-bit code yields 0 or a width in 2..8 |
| DdsDecode.WidthRoundTrip | Formats/DDSLoader.cpp:126-130 | every width except 1 survives DDS_code followed by DDS_decode |
| DdsDecode.WidthOneWidens | Formats/DDSLoader.cpp:126-130 | width 1 comes back as 2 |
| DdsDecode.CodeRoundTrip | Formats/DDSLoader.cpp:126-130 | DDS_code undoes DDS_decode for every code |
| DdsDecode.Run | Formats/DDSLoader.cpp:224-227 | a run of n deltas read from consecutive fields has n entries |
| DdsDecode.RunWidth | Formats/DDSLoader.cpp:222 | the width a run's 3-bit code selects is at most 8 |
| DdsDecode.RunsLength | Formats/DDSLoader.cpp:220-248 | the stream holds exactly as many deltas as its run lengths before the first zero add up to |
| DdsDecode.Rebuild | Formats/DDSLoader.cpp:224-246 | one byte per delta |
| DdsDecode.RebuildPrefix | Formats/DDSLoader.cpp:224-246 | rebuilding a prefix of the deltas gives the prefix of the bytes: later deltas never change earlier bytes |
| DdsDecode.RebuildAt | Formats/DDSLoader.cpp:226-230 | byte i = (byte i-1, 0 before the first) + delta - 2^width/2, plus out[i-strip] - out[i-strip-1] when strip != 1 and i > strip, modulo 256; the predictor reads only bytes already written |
| DdsDecode.RebuildLast | Formats/DDSLoader.cpp:226-245 | byte i is what delta i adds after the bytes before it |
| DdsDecode.Skip | Formats/DDSLoader.cpp:214 | skip is the 2-bit field plus one, 1..4 |
| DdsDecode.Strip | Formats/DDSLoader.cpp:215 | strip is the 16-bit field plus one, 1..65536 |
| DdsDecode.DecodedLength | Formats/DDSLoader.cpp:220-256 | the decoded length is the sum of the run lengths before the first zero run |
| DdsDecode.DecodedDeinterleaves | Formats/DDSLoader.cpp:253 | de-interleaving the decoder's output with its skip and block gives the rebuilt bytes in stream order |
| DdsDecode.RunsAdvance | Formats/DDSLoader.cpp:220-224 | a run of non-zero length is the front of the stream and leaves fewer bits to read |
| DdsDecode.RunsDone | Formats/DDSLoader.cpp:220 | a zero run length ends the stream |
| DdsDecode.WrapByte | Formats/DDSLoader.cpp:229-230 | the ±256 loops leave the accumulator modulo 256 |
| DdsDecode.NextValue | Formats/DDSLoader.cpp:226-230 | one delta of the inner loop: the next byte of the recurrence, bits bits consumed |
| DdsDecode.ReadRun | Formats/DDSLoader.cpp:224-247 | the inner loop: the rebuilt bytes extended by one run's deltas |
| DdsDecode.NextRun | Formats/DDSLoader.cpp:222-247 | one run: the 3-bit width code and n deltas, ending at the run's end |
| DdsDecode.ReadRuns | Formats/DDSLoader.cpp:220-248 | the run loop: the bytes rebuilt from all runs before the first zero run |
| DdsDecode.ReadHeader | Formats/DDSLoader.cpp:214-215 | the 2-bit skip and 16-bit strip fields, each one more than stored |
| DdsDecode.Reinterleave | Formats/DDSLoader.cpp:253 | the closing DDS_interleave on the rebuilt bytes |
| DdsDecode.Decode | Formats/DDSLoader.cpp:198-257 | DDS_decode(chunk, ...) returns exactly the Decoded function of the payload |
| DdsInterleave.GroupClosed | Formats/DDSLoader.cpp:141-153 | the first i columns of a window of n bytes hold i*(n/s) bytes plus one for each long column |
| DdsInterleave.GroupAll | Formats/DDSLoader.cpp:141-153 | all s columns together fill the window |
| DdsInterleave.ColumnBound | Formats/DDSLoader.cpp:145-146 | column i has entry t exactly when i + t*s < n |
| DdsInterleave.Deinterleaved | Formats/DDSLoader.cpp:141-153 | the gathering pass keeps the window's length |
| DdsInterleave.Dst | Formats/DDSLoader.cpp:141-153 | the target of a byte of the window lies inside the window |
| DdsInterleave.Interleaved | Formats/DDSLoader.cpp:141-153 | the restoring pass keeps the window's length |
| DdsInterleave.InterleavedAt | Formats/DDSLoader.cpp:141-153 | restoring takes byte q back from Dst(q) |
| DdsInterleave.DeinterleavedAt | Formats/DDSLoader.cpp:141-153 | gathering moves byte q to Dst(q) |
| DdsInterleave.DstOnto | Formats/DDSLoader.cpp:141-153 | every position of the window is the target of some byte, so the map is a permutation |
| DdsInterleave.InterleavedUndoes | Formats/DDSLoader.cpp:141-153 | restoring undoes gathering |
| DdsInterleave.DeinterleavedUndoes | Formats/DDSLoader.cpp:141-153 | gathering undoes restoring |
| DdsInterleave.Windowed | Formats/DDSLoader.cpp:155-188 | windows of skip*block bytes, the last one shorter, each regrouped; the length is kept |
| DdsInterleave.Shuffled | Formats/DDSLoader.cpp:133-191 | DDS_deinterleave as a function of the bytes; the length is kept |
| DdsInterleave.PermutedUndoes | Formats/DDSLoader.cpp:141-153 | the global mode's two directions undo each other |
| DdsInterleave.WindowedUndoes | Formats/DDSLoader.cpp:155-188 | the windowed mode's two directions undo each other, the short last window included |
| DdsInterleave.ShuffledUndoes | Formats/DDSLoader.cpp:133-195 | DDS_interleave undoes DDS_deinterleave and the other way round, for any skip and any block |
| DdsInterleave.WindowedAppend | Formats/DDSLoader.cpp:155-188 | bytes move only inside their own window: full windows then one more are regrouped separately |
| DdsInterleave.WindowedCons | Formats/DDSLoader.cpp:155-175 | the first full window is regrouped on its own, independently of the rest |
| DdsInterleave.Gather | Formats/DDSLoader.cpp:145-149 | the non-restoring loops put the window's columns one after the other into the scratch buffer |
| DdsInterleave.GatherColumn | Formats/DDSLoader.cpp:146-147 | one inner loop appends bytes i, i+s, i+2s, ... of the window |
| DdsInterleave.Scatter | Formats/DDSLoader.cpp:143-144 | the restoring loops put each byte back at its original position |
| DdsInterleave.ScatterColumn | Formats/DDSLoader.cpp:143-144 | one inner loop puts column i back and touches nothing else |
| DdsInterleave.CopyBack | Formats/DDSLoader.cpp:151 | memcpy of the scratch buffer over the window, the rest of the array unchanged |
| DdsInterleave.ShuffleWindow | Formats/DDSLoader.cpp:141-153 | one window regrouped in place, the bytes before and after it unchanged |
| DdsInterleave.Deinterleave | Formats/DDSLoader.cpp:133-191 | DDS_deinterleave(data, bytes, skip, block, restore) leaves Shuffled of the old bytes |
| DdsInterleave.ShuffleWindows | Formats/DDSLoader.cpp:155-188 | the loop over k and the last shorter window regroup the stream window by window |
| DdsInterleave.WindowCount | Formats/DDSLoader.cpp:159 | bytes/skip/block counts the full windows, and less than one window is left |
| DdsInterleave.FullWindow | Formats/DDSLoader.cpp:159-172 | one pass of the loop over k regroups the next full window |
| DdsInterleave.LastWindow | Formats/DDSLoader.cpp:174-188 | the shorter last window is regrouped by the same rule, completing the stream |
| DdsInterleave.Interleave | Formats/DDSLoader.cpp:194-195 | DDS_interleave is DDS_deinterleave with restore set |
| DdsContainer.DdsOrRaw | Formats/DDSLoader.cpp:387-388 | the DDS reading or else the raw bytes; whatever is returned is non-empty |
| DdsContainer.SignatureSelectsBlock | Formats/DDSLoader.cpp:325-352 | "DDS v3d\n" selects block 0 and "DDS v3e\n" selects DDS_INTERLEAVE |
| DdsContainer.ReadDdsDecodes | Formats/DDSLoader.cpp:348-356 | a signed non-empty payload is decoded with the block its signature selects; an empty decoding reads as NULL |
| DdsContainer.EmptyPayloadIsFatal | Formats/DDSLoader.cpp:348 | a signature with nothing after it is fatal |
| DdsContainer.FallsBackToRaw | Formats/DDSLoader.cpp:387-388 | when readDDSfile gives NULL the readers use the raw file, or NULL when it is empty |
| DdsContainer.UnsignedIsRaw | Formats/DDSLoader.cpp:325-346 | any other start is not DDS, and the readers fall back to the raw bytes |
| DdsContainer.MatchSignature | Formats/DDSLoader.cpp:325-332 | the signature loop matches exactly when the file starts with the signature |
| DdsContainer.ReadDdsFile | Formats/DDSLoader.cpp:310-357 | readDDSfile on the file's bytes is the ReadDds function |
| DdsContainer.ReadDdsOrRaw | Formats/DDSLoader.cpp:387-388 | the opening of the PNM and PVM readers is the DdsOrRaw function |
| DdsContainer.Partner | Formats/DDSLoader.cpp:365-371 | the other byte of the same 16-bit pair |
| DdsContainer.SwappedPairs | Formats/DDSLoader.cpp:365-371 | the first n pairs swapped; the length is kept |
| DdsContainer.SwapTwice | Formats/DDSLoader.cpp:359-372 | swapping the same pairs twice restores the bytes |
| DdsContainer.SwapShort | Formats/DDSLoader.cpp:359-372 | swapshort(ptr, size) swaps size byte pairs in place and leaves the rest |
| DdsContainer.PairsSwapped | Formats/DDSLoader.cpp:365-371 | pairs swapped one by one with the rest unchanged is SwappedPairs |
| Pnm.PnmType | Formats/DDSLoader.cpp:392-395 | sscanf "P%1d" on the first three bytes: the file starts with 'P' and the type is 0..9 |
| Pnm.SkipComments | Formats/DDSLoader.cpp:397-407 | the comment loop stops at a byte that is neither a newline nor '#', or is fatal at the buffer's end |
| Pnm.Delimiter | Formats/DDSLoader.cpp:410 | the first space or newline from p, with none before it |
| Pnm.FieldEnd | Formats/DDSLoader.cpp:410-412 | one header field and its delimiter end inside the buffer, or the reader fails fatally |
| Pnm.HeaderEnd | Formats/DDSLoader.cpp:409-418 | the three field loops end inside the buffer, or the reader fails fatally |
| Pnm.Components | Formats/DDSLoader.cpp:428-431 | P5/255 gives 1, P5/32767 or 65535 gives 2, P6/255 gives 3, and nothing else is accepted |
| Pnm.ParseBody | Formats/DDSLoader.cpp:409-436 | an accepted image has width and height at least 1, 1..3 components and as many pixel bytes as the size check computes |
| Pnm.ReadPnm | Formats/DDSLoader.cpp:375-440 | readPNMimage as written: the pixel bytes are the product width*height*components reduced modulo 2^32 |
| Pnm.ReadPnmChecked | Formats/DDSLoader.cpp:433-436 | the corrected reader: the pixel bytes are the true product |
| Pnm.BodyAgreesBelowWord | Formats/DDSLoader.cpp:433-434 | both size checks read an image alike when its product fits in 32 bits |
| Pnm.CheckedAgreesBelowWord | Formats/DDSLoader.cpp:433-434 | readPNMimage as written and corrected agree, in both directions, on every image whose product fits in 32 bits |
| Pnm.FieldOfDigits | Formats/DDSLoader.cpp:410-412 | a digit field ends just past its delimiter |
| Pnm.SizeLineFields | Formats/DDSLoader.cpp:409-418 | the three field loops span the size line "w h\nm\n" |
| Pnm.SizeLineReads | Formats/DDSLoader.cpp:420-424 | sscanf "%d %d\n%d\n" reads the size line's digit runs as their values |
| Pnm.NoComments | Formats/DDSLoader.cpp:398 | a size line that starts at once leaves nothing to skip |
| Pnm.WrappedSizeAccepted | Formats/DDSLoader.cpp:433-434 | as written, a 641 x 6700417 grey image with one pixel byte is accepted; the true product rejects it |
| Pnm.SkipHeaderComments | Formats/DDSLoader.cpp:397-407 | the nested comment loops compute SkipComments |
| Pnm.ScanField | Formats/DDSLoader.cpp:410-412 | one field loop computes FieldEnd |
| Pnm.ScanHeader | Formats/DDSLoader.cpp:409-418 | the three field loops compute HeaderEnd |
| Pnm.ReadPnmImage | Formats/DDSLoader.cpp:375-440 | readPNMimage on the file's bytes is ReadPnm |
| Pnm.PnmFileParses | Formats/DDSLoader.cpp:375-440 | a file "P<t>\nw h\nmaxval\n" followed by pixels is accepted exactly when its sizes, type and maxval pass the reader's checks and the pixels fill the size check; it then reads back width, height, components and pixels |
| Pvm.Version | Formats/DDSLoader.cpp:470-474 | version 1 exactly for "PVM\n", 2 for "PVM2\n" and 3 for "PVM3\n" |
| Pvm.SkipComments | Formats/DDSLoader.cpp:484-485 | the '#' loop stops at a byte that is not '#', or is fatal past the buffer |
| Pvm.NextLine | Formats/DDSLoader.cpp:479 | strchr(ptr, '\n') + 1 is just past a newline, or is fatal without one |
| Pvm.Dimensions | Formats/DDSLoader.cpp:478 | accepted dimensions are all at least 1 |
| Pvm.Header1 | Formats/DDSLoader.cpp:482-489 | the version 1 header: unit scales, dimensions at least 1, or fatal |
| Pvm.Header23 | Formats/DDSLoader.cpp:476-479 | the version 2 and 3 header: dimensions at least 1 and three positive scales, or fatal |
| Pvm.ParseHeader | Formats/DDSLoader.cpp:470-489 | the header for the version, with dimensions at least 1 |
| Pvm.TrailerLength | Formats/DDSLoader.cpp:506 | strlen + 1 of a trailer string is at least 1 and ends at the buffer's NUL at the latest |
| Pvm.Trailer | Formats/DDSLoader.cpp:505-509 | four lengths of at least 1 under version 3, all 0 otherwise |
| Pvm.Meta | Formats/DDSLoader.cpp:516-538 | a metadata slot is filled exactly when the caller passes it and the string's length is above 1 |
| Pvm.ParseBody | Formats/DDSLoader.cpp:498-513 | the component count is at least 1, and exactly 1 when no components slot is passed |
| Pvm.Assemble | Formats/DDSLoader.cpp:505-538 | the dimensions and component count are those read |
| Pvm.ParseVolume | Formats/DDSLoader.cpp:465-474 | only buffers of at least 5 bytes with a PVM signature are accepted |
| Pvm.ReadPvm | Formats/DDSLoader.cpp:443-541 | readPVMvolume as written accepts only signed buffers of at least 5 bytes, with dimensions and components at least 1 |
| Pvm.ReadPvmChecked | Formats/DDSLoader.cpp:510-513 | the corrected reader has the same acceptance conditions, with the size check on the true product |
| Pvm.SkipCommentLines | Formats/DDSLoader.cpp:484-485 | the nested comment loops compute SkipComments |
| Pvm.ReadHeader1 | Formats/DDSLoader.cpp:482-489 | the version 1 branch computes Header1 |
| Pvm.ReadPvmVolume | Formats/DDSLoader.cpp:443-541 | readPVMvolume on the file's bytes is ReadPvm |
| Pvm.AssembledSize | Formats/DDSLoader.cpp:505-513 | the returned buffer is the end of the file up to its NUL: exactly the voxels, or under version 3 the voxels followed by four NUL-terminated strings that end the buffer |
| Pvm.AssembledScales | Formats/DDSLoader.cpp:491-496 | the scales reach the caller exactly when all three slots are passed |
| Pvm.AssembledSlots | Formats/DDSLoader.cpp:516-538 | a trailer string reaches its slot only under version 3, when the slot is passed and the string is not empty |
| Pvm.BodySize | Formats/DDSLoader.cpp:505-513 | the exact-size check: header + voxel bytes + trailer lengths is the whole buffer |
| Pvm.PvmFileParses | Formats/DDSLoader.cpp:443-541 | a version 1 file reads back its dimensions, and is accepted exactly when its voxels fill w*h*d*components bytes |
| Pvm.WrappedVolumeAccepted | Formats/DDSLoader.cpp:510-513 | as written, "PVM\n65536 65536 1\n1\n" with no voxels is accepted; the true product rejects it |
| Pvm.BodyAgreesBelowWord | Formats/DDSLoader.cpp:510-513 | both size checks read a body alike when its product fits in 32 bits |
| Pvm.CheckedAgreesBelowWord | Formats/DDSLoader.cpp:510-513 | readPVMvolume as written and corrected agree on every volume whose product fits in 32 bits |
| PvmFiles.JoinedLength | Formats/DDSLoader.cpp:505-509 | four strings joined with their NULs are as long as the strlen + 1 lengths add up to |
| PvmFiles.TextOfJoined | Formats/DDSLoader.cpp:505-509 | NUL-free strings joined with NULs and placed in the buffer are seen by strlen one after the other, each with its own length |
| PvmFiles.TrailerOfText | Formats/DDSLoader.cpp:505-509 | the four strlen + 1 reads of the version 3 trailer give the lengths of the strings laid out there |
| PvmFiles.SlotsOfText | Formats/DDSLoader.cpp:516-538 | each trailer string, read at its offset, reaches its description, courtesy, parameter or comment slot exactly when the slot is passed and the string is not empty |
| PvmFiles.HeaderOfLines | Formats/DDSLoader.cpp:476-479 | the size line "w h d" and a scales line of whole numbers read back as the header, with the body starting after the scales line |
| PvmFiles.Assemble3 | Formats/DDSLoader.cpp:505-538 | a version 3 buffer of voxels and four NUL-free strings yields the voxels and the strings as the returned buffer and its slots |
| PvmFiles.ScaledParses | Formats/DDSLoader.cpp:443-513 | a version 2 or 3 file with whole-number scales reads its header and component count and is then decided by the size and trailer check |
| PvmFiles.Pvm2FileParses | Formats/DDSLoader.cpp:443-541 | a PVM2 file reads back its dimensions, scales and component count, and is accepted exactly when its voxels fill the size the reader computes |
| PvmFiles.Pvm3FileParses | Formats/DDSLoader.cpp:443-541 | a PVM3 file whose voxels fill the size reads back its dimensions, scales, voxels and four trailer strings, each in its slot when passed and not empty |
| QtValues.Bound | Volume.cpp:14-16 | qBound(lo, v, hi): v moved into [lo, hi], and lo when hi < lo |
| QtValues.BoundMonotone | Widgets/LutWidget.cpp:264-265 | qBound never reverses the order of two values |
| QtValues.BoundStep | Widgets/LutWidget.cpp:264-265 | one step of x moves qBound(0, x, 4095) by at most one, so a clamped range leaves no gap |
| QtValues.CeilDiv8 | Formats/Loader.h:23 | qCeil(bits/8.): the fewest whole bytes that hold the bits |
| QtValues.Rgb | Widgets/SliceWidget.cpp:13 | qRgb is qRgba with alpha 255 |
| QtValues.RgbaChannels | Widgets/LutWidget.cpp:266 | qAlpha, qRed, qGreen and qBlue take back the low 8 bits of what qRgba packed |
| QtValues.RgbaOfChannels | Widgets/LutWidget.cpp:81 | a colour is determined by its four channels |
| QtValues.Min | Formats/Loader.cpp:17 | qMin: at most both arguments and one of them |
| QtValues.Max | Formats/Loader.cpp:18 | qMax: at least both arguments and one of them |
| QtValues.RunStep | Formats/Loader.cpp:17-18 | one more sample: the running values take s[i] in |
| QtValues.RunMinIsMinimum | Formats/Loader.cpp:17 | the running minimum is at most the start and every sample, and is the start or a sample |
| QtValues.RunMaxIsMaximum | Formats/Loader.cpp:18 | the running maximum is at least the start and every sample, and is the start or a sample |
| Loading.ByteOrderCode | Formats/Loader.h:11-14 | BO_LITTLE_ENDIAN is 0 and BO_BIG_ENDIAN is 1 |
| Loading.BigEndian16 | Formats/Loader.cpp:12 | data[2i]<<8 \| data[2i+1]: high byte first |
| Loading.Native16 | Formats/Loader.cpp:47-48 | a uint16_t load on a little-endian host: low byte first |
| Loading.ScanSample | Formats/Loader.cpp:11-15 | findMinMax's sample i: the byte data[i] unless there are 2 bytes per value |
| Loading.CopySample | Formats/Loader.cpp:44-49 | normalizeData's sample i: a 16-bit value for 2-byte samples |
| Loading.ScanSamples | Formats/Loader.cpp:8-16 | the samples findMinMax reads, one per voxel |
| Loading.CopySamples | Formats/Loader.cpp:43-49 | the samples normalizeData converts, one per voxel |
| Loading.Loader.constructor | Formats/Loader.h:37-39 | a fresh loader has width = height = depth = 0 and linearize on |
| Loading.Loader.GetDimensions | Formats/Loader.h:18-24 | the stored dimensions and bytesPerVal = ceil(bitDepth/8) |
| Loading.Loader.SetLinearize | Formats/Loader.h:26-29 | only the flag changes, and the same loader is returned |
| Loading.Loader.FindMinMax | Formats/Loader.cpp:6-20 | min and max become the running qMin/qMax of the big-endian scan, and nothing else is written |
| Loading.Loader.StoreValues | Formats/Loader.cpp:43-63 | each dst entry i holds the value computed from sample i, 1 or 2 bytes per entry, and the rest of dst is unchanged |
| Loading.Loader.NormalizeData | Formats/Loader.cpp:27-64 | as written: min/max start at 2^bitDepth and 0, are scanned under linearize, and feed the value map; exactly voxelCount entries are written and data is untouched |
| Loading.Loader.FindMinMaxInOrder | Formats/Loader.cpp:6-20 | the scan over the samples in the file's byte order |
| Loading.Loader.NormalizeDataInOrder | Formats/Loader.cpp:27-64 | corrected: under linearize every converted sample lies between the min and max handed with it |
| Loading.UnlinearizedLoadLeavesValueUnassigned | Formats/Loader.cpp:50-60 | with as many bytes per entry as per sample, as both loaders pass, normalizeData without linearize never assigns the val it stores |
| Loading.Loader.NormalizeDataDefined | Formats/Loader.cpp:27-64 | corrected: every call is defined; entries get the mapped sample when val is assigned as written, and the raw sample otherwise |
| Loading.ScanIgnoresByteOrder | Formats/Loader.cpp:12 | for little-endian bytes 01 00 the scan's minimum is 256 while the converted sample is 1 |
| Loading.ScanAgreesWithCopy | Formats/Loader.cpp:11-15 | the scan and the conversion read the same samples for 1-byte samples and for big-endian 16-bit ones |
| Volumes.CellOffset | Volume.cpp:19 | index*bytesPerCell as unsigned, exact when it fits |
| Volumes.Volume.constructor | Volume.h:48-51 | a fresh volume has bit depth 8, one byte per cell and no data |
| Volumes.LastCoordinate | Volume.cpp:14-16 | (int)dimension - 1: dimension - 1 below 2^31, negative from 2^31 on |
| Volumes.Volume.CellIndex | Volume.cpp:14-17 | the clamped linear index is below w*h*d, and is x + y*w + z*w*h inside a volume whose dimensions are below 2^31 |
| Volumes.Volume.VoxelAt | Volume.cpp:12-20 | the clamped voxel's bytes lie inside the buffer when the volume fits in 32 bits |
| Volumes.Volume.VoxelAtIndex | Volume.cpp:22-25 | voxelAt(i) is offset i*bytesPerCell |
| Volumes.Volume.CellValue | Volume.cpp:45-49 | a byte for one byte per cell, otherwise the little-endian 16-bit value |
| Volumes.Volume.DensityAt | Volume.cpp:43-50 | densityAt(x, y, z) is in 0..255 or 0..65535 by cell size |
| Volumes.Volume.DensityAtIndex | Volume.cpp:52-59 | densityAt(i) is in 0..255 or 0..65535 by cell size |
| Volumes.Volume.Slice | Volume.cpp:66-69 | getSlice(z) is offset z*width*height*bytesPerCell |
| Volumes.Volume.VoxelCount | Volume.h:32 | voxelCount() is width*height*depth when it fits |
| Volumes.Volume.GetBytesPerCellAsWritten | Volume.h:35 | as written: the truncated bitDepth/8 |
| Volumes.Volume.GetBytesPerCell | Volume.cpp:74 | corrected: the fewest whole bytes that hold bitDepth bits |
| Volumes.Volume.SetVolData | Volume.cpp:71-92 | the bit depth, bytes per cell and dimensions are always set; the data is replaced and volDataChanged emitted only for a non-null buffer |
| Volumes.LinearIndexBelow | Volume.cpp:17 | the linear index of coordinates inside the box is inside the box |
| Volumes.OffsetInBuffer | Volume.cpp:19 | a cell's offset does not wrap and its bytes end inside the buffer |
| Volumes.EdgeVoxel | Volume.cpp:14-16 | out-of-range coordinates address the nearest edge voxel; along an axis of 2^31 or more cells every coordinate addresses the first voxel |
| Volumes.IndexBelowCount | Volume.cpp:14-17 | every clamped index is below voxelCount() |
| Volumes.OverloadsAgree | Volume.cpp:12-25 | voxelAt(x, y, z) inside the volume is voxelAt(x + y*w + z*w*h) when the dimensions are below 2^31; for a width of 2^31 or more and x > 0 the two differ |
| Volumes.WideVolumeIsShallow | Volume.cpp:14-17 | a volume 2^31 or more cells wide that fits in 32 bits has fewer than 2^31 rows and slices |
| Volumes.OffsetsDiffer | Volume.cpp:19 | two different cells of a buffer that fits in 32 bits have different offsets |
| Volumes.SliceIsFirstVoxel | Volume.cpp:66-69 | getSlice(z) is voxel (0, 0, z) when the depth is below 2^31, and the slice lies inside the buffer |
| Volumes.SliceBelowTotal | Volume.cpp:68 | slice z ends inside a buffer of d slices |
| Volumes.GetBytesPerCellAgrees | Volume.cpp:74 | the corrected getter returns what setVolData stored |
| Volumes.GetBytesPerCellAsWrittenDisagrees | Volume.h:35 | for a bit depth that is not whole bytes, the getter as written returns one less than setVolData stored |
| Luts.PresetColours | Widgets/LutWidget.cpp:241-251 | the three preset colours are transparent white, a tint of opacity 9 and opaque white |
| Luts.PresetOpacityRises | Widgets/LutWidget.cpp:241-251 | the preset opacity is 0, 9 and 255 by band and never falls as the index rises |
| Luts.PaintedIsBoundedRange | Widgets/LutWidget.cpp:263-267 | the entries painted are exactly qBound(0, x, 4095) for x in [x1, x2], all inside the table |
| Luts.WheelWidth | Widgets/LutWidget.cpp:93-97 | a wheel step changes the width by at most one, widens exactly on a positive delta, and never takes a width of 0 or more below 0 |
| Luts.WheelKeepsWidth | Widgets/LutWidget.cpp:91-100 | no sequence of wheel steps takes a non-negative width below 0 |
| Luts.LutWidget.constructor | Widgets/LutWidget.cpp:10-26 | all table entries and bins are 0, histogram[4096] is 1, and the brush is white and 1 wide |
| Luts.LutWidget.SetBrushColor | Widgets/LutWidget.cpp:35-38 | only the brush colour changes |
| Luts.LutWidget.SetBrushWidth | Widgets/LutWidget.cpp:47-50 | only the brush width changes |
| Luts.LutWidget.WheelEvent | Widgets/LutWidget.cpp:91-100 | the width takes one wheel step, never going below 0 from 0 or more, and the new width is emitted |
| Luts.LutWidget.ResetLut | Widgets/LutWidget.cpp:239-256 | entries 0..4077 get the preset bands, and entries 4078..4095 are unchanged |
| Luts.LutWidget.UpdateLutRange | Widgets/LutWidget.cpp:258-268 | exactly the painted entries get the colour, every other entry is unchanged, and nothing changes when x1 > x2 |
| Luts.LutWidget.HistogramMax | Widgets/LutWidget.cpp:149-154 | histogram[4096] becomes the maximum of the bins: at least every bin and equal to one; the bins are unchanged |
| Luts.MaxIsAttained | Widgets/LutWidget.cpp:152-154 | the running maximum from 0 bounds every bin and is one of them |
| Slices.ClampedSlice | Widgets/SliceWidget.cpp:19 | the stored slice is below the depth, equal to z inside the volume, 0 below it and depth - 1 above it |
| Slices.LastSliceReported | Widgets/SliceWidget.cpp:24-28 | setSlice reports true exactly for 0 <= z < depth - 1; the last slice is stored but reported false |
| Slices.WheelSlice | Widgets/SliceWidget.cpp:99-103 | a wheel step moves one slice back or forward within the volume, and stays at 0 going down |
| Slices.GreyLevel | Widgets/SliceWidget.cpp:13 | qRgb(i, i, i) is opaque grey level i |
| Slices.SliceWidget.constructor | Widgets/SliceWidget.cpp:8-15 | slice 0, and a 256-entry table whose entry i is qRgb(i, i, i) |
| Slices.SliceWidget.SetSlice | Widgets/SliceWidget.cpp:17-29 | the clamped z is stored, the result is SliceAccepted, and sliceChanged carries z unclamped |
| Slices.SliceWidget.WheelEvent | Widgets/SliceWidget.cpp:96-104 | the slice takes one wheel step through setSlice, and a step down at slice 0 stays at 0 |
| Rendering.NormalizedAngle | Widgets/VolRenderer.cpp:6-12 | the result is in [0, 5760], congruent to the angle modulo 5760, and unchanged for in-range angles |
| Rendering.FullTurnKept | Widgets/VolRenderer.cpp:10 | 5760 is kept because the upper test is strict, and -5760 becomes 0 |
| Rendering.NormalizeIdempotent | Widgets/VolRenderer.cpp:6-12 | normalising twice is normalising once |
| Rendering.NormalizeAngle | Widgets/VolRenderer.cpp:6-12 | the two while loops compute NormalizedAngle |
| Rendering.VolRenderer.constructor | Widgets/VolRenderer.h:105 | rotations start at 0 and the light is on |
| Rendering.VolRenderer.SetXRotation | Widgets/VolRenderer.cpp:610-617 | xRot becomes the normalised angle, the change is reported exactly when it differs, and the other axes are unchanged |
| Rendering.VolRenderer.SetYRotation | Widgets/VolRenderer.cpp:619-626 | as for x, on yRot |
| Rendering.VolRenderer.SetZRotation | Widgets/VolRenderer.cpp:628-635 | as for x, on zRot |
| Rendering.VolRenderer.ToggleLight | Widgets/VolRenderer.cpp:70-76 | forced on, or negated otherwise; the rotations are unchanged |
| Rendering.VolRenderer.Idle | Widgets/VolRenderer.cpp:135-139 | xRot grows by 1 without normalising |
| Rendering.VolRenderer.MouseMove | Widgets/VolRenderer.cpp:475-480 | a left drag sets x - 8dy and z + 8dx, a right drag x + 8dy and y + 8dx, each normalised; other buttons leave the angles |
| BinaryLiterals.Conv2Bin | common.h:26-46 | defined exactly for non-empty packs of '0' and '1', with a value below 2^digits |
| BinaryLiterals.Binary | common.h:29-34 | w binary digits, most significant first |
| BinaryLiterals.ReadWritten | common.h:29-40 | writing a value below 2^w in w digits and reading them back gives the value |
| BinaryLiterals.WrittenRead | common.h:29-40 | reading a literal and writing its value back in as many digits gives the digits |
| BinaryLiterals.Examples | common.h:36-46 | "1" is 1, "0" is 0 and "101" is 5; "12" and "" are rejected |

## Left out

- File I/O. The fopen, fgetc and fread of readRAWfiled, readRAWfile and readDDSfile are not modelled, nor are RawLoader::loadFile, saveLut and loadLut. The readers take the file's bytes as a sequence. A file that cannot be opened is the same as an empty one.
- DDSLoader::loadFile is modelled only through its call to readPVMvolume (`Pvm.LoadFileSlots`). Its bitDepth = components*8 and its normalizeData call are the general `Loading.Loader.NormalizeData` with BigEndian.
- Formats/DicomLoader.cpp is not part of this model. It is a wrapper over a third-party library whose code is not shown.
- Qt and OpenGL presentation is not modelled. This covers shaders, textures, paintGL, paintEvent and draw* methods, MainWindow, OpenWizard, main.cpp, windows_compat and the LightSource setters.
- Floating point is not modelled:
  - scaleHistogram and the raw/rangeMax*255 conversion are the `scale` parameter of `Loading.Loader.StoreValues` and `NormalizeData`.
  - The %g scales of PVM2/PVM3 are kept as their characters, with a positivity predicate on the text (see `CText.ScanFloat` below).
  - The opacity updateLutRange computes from the mouse height is its `alpha` parameter.
  - The mouse-to-index arithmetic, zoom, light position and frame timing are left out.
- calculateHistogram is modelled only in its final maximum step (`Luts.LutWidget.HistogramMax`). The bin zeroing and the randomly strided sampling are left out because the stride comes from a random generator.
- Memory management is not modelled. The 1 MiB growth of the decoder's buffer is an append to a sequence. Allocation failure, the `free(chunk)` after DDS_loadbits has already reallocated the chunk, and the destructors are left out.
- Host endianness: DDS_ISINTEL is taken as true. The bit reader reads big-endian words directly, and `DdsBits.SwapUintReadsBigEndian` shows this equals a native load followed by DDS_swapuint.
- Undefined behaviour becomes an error result or is excluded:
  - A strlen or strchr in readPVMvolume that would run past the buffer's NUL is `Fatal`.
  - The uninitialised `val` of normalizeData on its non-linearize path without a 16-to-8-bit conversion is excluded by the precondition of `Loading.Loader.NormalizeData`. It is recorded under "## Findings", and `Loading.Loader.NormalizeDataDefined` is the corrected reading.
  - The middle-click read of `lut[4096]` in mousePressEvent is not modelled.
- Signals are not modelled as Qt connections. An emitted value is returned, or reported as a `changed` flag. resetLut's lutChanged and the redraw and update calls are left out.
- The Volume getters getWidth, getHeight, getDepth, getBitDepth and getData are plain field reads. They are the class's fields.
- setHistogramVisible, updateVolume, print_binary and StopWatch are display, console and clock code, and are left out.
- DdsInterleave.Deinterleave: skip*block is an unsigned int product in the C code. The model requires it to be below 2^32 rather than modelling its wrap.
- Pvm.Trailer: the strlen offsets are added as unbounded integers. A trailer position whose unsigned sum would wrap is not modelled.
- Rendering.VolRenderer.Idle: int overflow of xRot + 1 is not modelled (unbounded integers). The same holds for the products 8*dx and 8*dy in `Rendering.VolRenderer.MouseMove`.
- Luts.LutWidget.WheelEvent: int overflow of brushWidth++ is not modelled (unbounded integers).
- Luts.LutWidget.UpdateLutRange: when x2 is INT_MAX, the x++ of `for(int x=x1; x <= x2; x++)` overflows a signed int in C, which is undefined behaviour. The model's loop over unbounded integers ends after x2 instead.
- CText.ScanFloat: %g is read in decimal notation only, and its value is kept as text. Three kinds of input therefore differ from glibc and strtof:
  - "inf", "nan" and hexadecimal fields such as "0x1p3" are read by glibc's %g, but the model makes the header `Fatal`. "nan" and "0x1p3" also pass the `<=0.0f` test in C.
  - "1e-50" underflows to 0.0f in C, so the header is rejected. `CText.PositiveField` looks only at the digits and accepts it.
  - A number whose 'e' or 'E' has no exponent digits, such as "3e". Section 7.21.6.2, paragraph 10, of ISO/IEC 9899:2011 makes this a matching failure, and the model fails the conversion (`CText.DanglingExponentFails`), so "1 1 3e\n" makes the header `Fatal`. glibc's scanf instead converts the digits before the consumed 'e'. With it, C accepts "1 1 3e\n" with the scale 3, and reads "1e 2 3" as the scales 1, 2 and 3, which the model also makes `Fatal`.
- Pvm.Header23: inherits the three differences of `CText.ScanFloat`. A PVM2 or PVM3 scales line with inf, nan, a hexadecimal float or an exponent letter without digits is `Fatal` in the model. A scale that underflows to 0.0f passes.
- Pnm.HeaderValues: a %d value is stored as its low 32 bits, read as a signed int (`AsSigned`) or an unsigned one (`Wrap32`). glibc converts with strtol, which saturates to LONG_MAX or LONG_MIN for a number outside the 64-bit long range before the store. Such numbers are not modelled. The same holds for the %d reads of `Pvm.Header1`, `Pvm.Header23` and `Pvm.ParseBody`.
- Loading.Loader.NormalizeData: requires bitDepth < 32. A 4-component PVM volume reaches normalizeData with bitDepth = 32, and qPow(2, 32) converted to unsigned is undefined behaviour in C, so that call is excluded rather than modelled.
- Loading.Loader.NormalizeDataInOrder: requires bitDepth < 32, for the same reason as `Loading.Loader.NormalizeData`.
- PvmFiles.Pvm2FileParses: the scales are written as whole numbers in decimal. A scale with a fraction or an exponent is read by the same `CText.ScanFloat`, but no file-level lemma covers it.
- PvmFiles.Pvm3FileParses: covers files whose voxels fill the size and whose four strings hold no NUL byte. A version 3 file of another length is decided by the size check of `Pvm.BodySize`, and a string with a NUL inside is read by strlen as a shorter one; neither has a file-level lemma.
- BinaryLiterals.Conv2Bin: the value is the mathematical one. A pack of 32 or more digits, whose `1 << sizeof...(digits)` overflows an int, is not modelled.

## Findings

| source | as written | input that shows it | evidently intended | confidence | as-written member | corrected member |
|---|---|---|---|---|---|---|
| Formats/DDSLoader.cpp:433-434 | readPNMimage's size check compares against the unsigned product width*height*components, which wraps modulo 2^32 | "P5\n641 6700417\n255\n" followed by one byte: 641*6700417 = 2^32 + 1 wraps to 1, so a 641 x 6700417 image is accepted with one pixel byte | the file must hold width*height*components pixel bytes | not executed | Pnm.WrappedSizeAccepted | Pnm.ReadPnmChecked (Pnm.CheckedAgreesBelowWord) |
| Formats/DDSLoader.cpp:506-513 | readPVMvolume computes the voxel byte count as the unsigned product width*height*depth*numc, which wraps modulo 2^32 | "PVM\n65536 65536 1\n1\n" with no voxel bytes: 65536*65536 wraps to 0, so an empty 65536 x 65536 x 1 volume is accepted | the file must hold width*height*depth*components voxel bytes | not executed | Pvm.WrappedVolumeAccepted | Pvm.ReadPvmChecked (Pvm.CheckedAgreesBelowWord) |
| Volume.h:35 | getBytesPerCell computes qCeil(bitDepth/8) with integer division, which truncates before the ceiling | bitDepth 12: setVolData stores 2 bytes per cell but getBytesPerCell returns 1 | qCeil(bitDepth/8.), the value setVolData stores (Volume.cpp:74) | not executed | Volumes.GetBytesPerCellAsWrittenDisagrees | Volumes.Volume.GetBytesPerCell (Volumes.GetBytesPerCellAgrees) |
| Formats/Loader.cpp:11-15 | findMinMax always assembles 2-byte samples big-endian, while normalizeData reads them natively for BO_LITTLE_ENDIAN (Formats/Loader.cpp:48) | one little-endian 16-bit voxel with bytes 01 00: the scan's minimum is 256 while normalizeData converts the sample 1 | the minimum and maximum are taken over the samples normalizeData converts, so each converted sample lies between them | not executed | Loading.ScanIgnoresByteOrder | Loading.Loader.NormalizeDataInOrder (Loading.Loader.FindMinMaxInOrder) |
| Formats/Loader.cpp:50-60 | normalizeData assigns val only under linearize or for 16-bit samples stored in 8-bit entries, and stores it in every case | setLinearize(false), then a load of 8-bit samples: both loaders pass dstBytesPerVal equal to the bytes per sample (Formats/RawLoader.cpp:36, Formats/DDSLoader.cpp:554), so each dst entry is an uninitialised val | without linearize and without the 8-bit conversion, the raw sample is stored | not executed | Loading.UnlinearizedLoadLeavesValueUnassigned | Loading.Loader.NormalizeDataDefined |
