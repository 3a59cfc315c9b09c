# psfutil PSF2 codec in Dafny

A model of the PC Screen Font version 2 codec in `psfutil.py`. The format follows the Linux kbd `psf.h` layout, and the run decoding follows RFC 3629 UTF-8. The model covers:

- the in-memory font, the `psf` class (constructor and `addGlyph`);
- the reader `readPSF`: magic number, seven header fields, bit-unpacking of glyph rows, and the unicode-table walk with its `ptr` cursor;
- the header and glyph-row emission of the writer `writePSF`.

Each imperative part of the source is a method with loop invariants, proved equal to a pure specification function:

| Method | Specification function |
|---|---|
| `Decoder.ReadPsf` | `Decoder.Decode` |
| `Encoder.WritePsf` | `Encoder.Encode` |
| `Font.Psf` | holds the fields as a class, mutated in place |

Lemmas about those functions state what the source promises. The properties proved are:

- the error cases and the order in which they are tested;
- the header offsets;
- the exact pixel bit rule;
- the shape of every decoded glyph;
- that the table walk consumes exactly `length` entries;
- that every character maps to an existing glyph, namely the last entry whose decoded runs hold it;
- the writer's layout and length;
- that what the writer emits reads back through the reader's offsets: header, glyphs and rows.

Modules, one per file:

| Module | Contents |
|---|---|
| `Wrappers` | `Option`, `Result`, `Outcome` |
| `Arith` | powers of two, division facts |
| `Bytes` | Python slicing, `int.from_bytes` / `int.to_bytes` |
| `Font` | constants, errors, the `Psf` class |
| `Utf8` | `bytes.decode()` as RFC 3629 defines it |
| `Table` | the unicode-table walk |
| `Rows` | row packing and unpacking |
| `Decoder` | the reader |
| `Encoder` | the writer |
| `RoundTrip` | the writer's output as the reader sees it |

Modelling choices:

- **Slicing.** Python slices are modelled exactly (`Bytes.PySlice`). A short buffer therefore yields short or empty slices, as in Python, not an error. The failures are:
  - `ZeroDivisionError` for `height == 0`;
  - `IndexError` when the table runs past the end (`TruncatedTable`);
  - `OverflowError` from `to_bytes` (`ValueTooLarge`).
- **Exits and exceptions.** `sys.exit` calls and exceptions are values of `Font.Error`.
- **Pixels.** Pixels are `nat`, as `addGlyph` does not check their values.
- **Constants.** They are kept as the source writes them:
  - The PSF1 magic number is `0x0435`. It reads as bytes `35 04`, where kbd's `psf.h` has `36 04`.
  - The run separator `PSF2_SEQ` is `0xEF`, where `psf.h` has `0xFE`.
  - `0xEF` is also the lead byte of every UTF-8 character from U+F000 to U+FFFF. The walk takes that lead byte for `PSF2_SEQ` and ends the run before it there. The run after it then starts with continuation bytes, so it does not decode, and the walk skips it whole. That loses every character up to the next separator, not only the split one: `EF 80 80 41 FF` (U+F000 then "A") maps nothing (`Table.SplitCharDropsRun`, `Table.ReplacementCharacterIsSplit`). The table round trip (`Table.WalkEncodedEntry`) is stated for runs without such characters.

The writer deviates from the text of `writePSF` in three places:

- **Line 187.** It appends the bare int `charSize` to a bytes object, which raises `TypeError`, so every PSF2 write that reaches line 187 fails there (a version, flags or length of `2^32` or more already fails earlier, with `OverflowError` at lines 183, 185 or 186). The model writes charSize as a 4-byte little-endian field, as the reader expects at lines 120-126.
- **Lines 194-198.** The shifts are computed and dropped, and the final shift mixes bytes and pixels. The model packs each row most-significant-bit first and shifts it by `8 * rowSize - width`, the inverse of the unpacking at lines 139-142. The packing as written is modelled too: see Findings.
- **Lines 201-205.** The table loop only prints and never appends bytes. It is not modelled, so the writer emits no unicode table.

`writePSF` returns nothing; `Encode` and `WritePsf` return the bytes that `binary` holds at the end. The eight header statements (lines 182-189) are one loop over the header values in `Encoder.WriteHeader`.

## Model

| member | source | states |
|---|---|---|
| Font.Psf.constructor | psfutil.py:87-95 | the fields are stored as given, `charSize = height * ((width + 7) // 8)`, glyphs and charMap start empty, and the glyph invariant holds |
| Font.Psf.AddGlyph | psfutil.py:102-105 | fails with a size error when the pixel count is not `height * width` (tested first), with an overflow error when `length` glyphs are present, otherwise appends exactly that glyph; only `glyphs` changes, and `len(glyphs) <= length` with every glyph of `height * width` pixels is preserved |
| Font.RowBytesFits | psfutil.py:90 | `(width + 7) // 8` is the fewest whole bytes that hold `width` bits |
| Font.RowSizeFromCharSize | psfutil.py:133 | for a nonzero height, `charSize // height` recovers the row size from a valid charSize |
| Bytes.PySlice | psfutil.py:138 | a slice is clipped to the buffer: never longer than `hi - lo`, element k is element `lo + k`, exact when in bounds, the rest of the buffer from `lo` when `hi` runs past its end, and empty when `lo` does |
| Bytes.FromToLE | psfutil.py:120-126 | reading back a little-endian `to_bytes` gives the value |
| Bytes.ToFromLE | psfutil.py:120-126 | writing back a little-endian `from_bytes` gives the bytes |
| Bytes.FromToBE | psfutil.py:139 | reading back a big-endian `to_bytes` gives the value |
| Bytes.ToFromBE | psfutil.py:139 | writing back a big-endian `from_bytes` gives the bytes |
| Utf8.DecodeEncode | psfutil.py:161 | decoding the UTF-8 form of any string gives the string |
| Utf8.EncodeDecode | psfutil.py:161 | bytes that decode are exactly the UTF-8 form of what they decode to (the encoding is unique) |
| Utf8.DecodeFirstOfEncodeChar | psfutil.py:161 | a character's encoding decodes to that character, whatever follows it |
| Utf8.EncodeCharOfDecodeFirst | psfutil.py:161 | a character decoded from the front of the bytes is encoded by exactly the bytes it took |
| Utf8.EncodeCharBytes | psfutil.py:84-85 | `0xFF` never occurs in UTF-8, and `0xEF` occurs exactly in the encodings of U+F000 to U+FFFF |
| Table.ScanRun | psfutil.py:153-158 | the position found is the first `PSF2_SEQ`/`PSF2_SEP` at or after the cursor; none means the buffer ends first |
| Table.MapCharsSpec | psfutil.py:162-163 | after the assignments, the keys are the old keys plus the run's characters, each of which maps to i; every other key keeps its glyph |
| Table.MapCharsAppend | psfutil.py:162-163 | mapping two runs one after the other is mapping their concatenation |
| Table.MapRunSpec | psfutil.py:160-166 | after one run, the keys are the old keys plus the run's decoded characters, each mapped to i; every other key keeps its glyph; a run that is not UTF-8 leaves the map unchanged |
| Table.EntryCharsIn | psfutil.py:152-163 | a character belongs to an entry's decoded characters exactly when some run of the entry decodes and holds it |
| Table.MapRunsSpec | psfutil.py:152-166 | after the runs of an entry, the keys are the old keys plus the characters of every run that decodes, each mapped to i; every other key keeps its glyph; a run that does not decode is skipped and later runs are still mapped |
| Table.MapRunsHit | psfutil.py:160-163 | every character of any run that decodes ends up mapped to the entry's glyph i, whatever the runs before or after it |
| Table.BadRunSkipped | psfutil.py:160-166 | in the entry `C0 EF 41 FF`, the run `C0` does not decode and is skipped, and "A" after it still maps to the entry's glyph |
| Table.SplitCharDropsRun | psfutil.py:153-166 | `EF 80 80 41` decodes to U+F000 then "A", yet the entry `EF 80 80 41 FF` maps nothing: the 0xEF is taken for `PSF2_SEQ` and the rest of the run does not decode |
| Table.RunSeparators | psfutil.py:153-158 | a run holds no `PSF2_SEP`, and the byte that ends it holds one exactly when it is `PSF2_SEP` |
| Table.WalkEntryEnd | psfutil.py:152-158 | an entry ends just after the first `PSF2_SEP` from its start, the only one it consumes |
| Table.WalkEntryRuns | psfutil.py:152-166 | walking an entry is cutting it into its runs and mapping them in order |
| Table.EntryRunsSeparators | psfutil.py:153-158 | the runs of an entry hold exactly one `PSF2_SEP`, at their end |
| Table.WalkEntryMap | psfutil.py:152-166 | a walked entry cuts into runs; the map after it has the old keys plus the characters of every run that decodes, each mapped to the entry's glyph i, and every other key keeps its glyph |
| Table.WalkEntryError | psfutil.py:154-158 | the only way an entry fails is running off the end of the bytes |
| Table.WalkTableError | psfutil.py:151-158 | the only way the table walk fails is running off the end of the bytes |
| Table.WalkEntryFound | psfutil.py:152-158 | an entry from `ptr` is walked exactly when a `PSF2_SEP` byte lies at or after `ptr`; otherwise `binary[ptr]` runs off the end |
| Table.WalkTableFound | psfutil.py:151-158 | the walk of entries i to n - 1 from `ptr` succeeds exactly when at least n - i `PSF2_SEP` bytes lie at or after `ptr`; otherwise it runs off the end |
| Table.WalkTablePastEnd | psfutil.py:151-155 | a walk of at least one entry that starts past the end of the bytes runs off the end |
| Table.WalkTableKeys | psfutil.py:151-166 | a successful walk of entries i to n - 1 keeps every earlier key and maps only to glyphs below n |
| Table.WalkTableEnd | psfutil.py:151-158 | a successful walk of entries i to n - 1 consumes exactly n - i `PSF2_SEP` bytes and stops just after one |
| Table.WalkTableRuns | psfutil.py:151-166 | walking the table is cutting entries i to n - 1 into their runs, in order, and mapping entry k's runs to glyph i + k; it fails exactly when the cutting runs off the end |
| Table.MapEntriesChar | psfutil.py:151-166 | a key after the entries is either an old key that no entry holds, with its old glyph, or a character mapped to the glyph of the last entry holding it |
| Table.MapEntriesLast | psfutil.py:151-166 | a character held by entry k in a decoded run, and by no later entry, maps to glyph i + k: later entries overwrite earlier ones |
| Table.MapEntriesSpec | psfutil.py:151-166 | mapping entries in order keeps every old key; a character held by some entry maps to the last entry holding it; every other key keeps its old glyph |
| Table.EncodeSeparable | psfutil.py:84-85 | a string without characters U+F000 to U+FFFF encodes to bytes with neither separator |
| Table.EncodeRunsPlain | psfutil.py:84-85 | such strings encode to runs the walk can hold |
| Table.EntryRunsOfBytes | psfutil.py:153-158 | cutting the bytes of an entry (runs split by `PSF2_SEQ`, ended by `PSF2_SEP`) gives back exactly its runs and the position after it |
| Table.MapRunsEncoded | psfutil.py:160-163 | mapping the UTF-8 forms of runs one by one maps all their characters in order |
| Table.WalkEntryOfParts | psfutil.py:152-166 | an entry made of separator-free runs maps them in order and ends after its `PSF2_SEP` |
| Table.WalkEncodedEntry | psfutil.py:151-166 | an entry holding the UTF-8 forms of strings, split by `PSF2_SEQ` and ended by `PSF2_SEP`, maps every character of every string to glyph i (last write wins) and ends just after it |
| Table.AliasesShareGlyph | psfutil.py:152-163 | "A" and "a" in one entry, split by `PSF2_SEQ`, both map to the entry's glyph |
| Table.ReplacementCharacterIsSplit | psfutil.py:85 | with `PSF2_SEQ = 0xEF`, U+FFFD (`EF BF BD`) is cut in two and neither half maps |
| Rows.BitOfBE | psfutil.py:139-142 | bit k of byte j of a big-endian integer is its bit `8 * (n - 1 - j) + k` |
| Rows.UnpackRowPixel | psfutil.py:139-142 | pixel x of an unpacked row is bit `7 - x % 8` of byte `x / 8`: most significant bit first, padding at the end |
| Rows.PixelsOfValue | psfutil.py:141-142 | splitting the value of a 0/1 row into bits gives the row back |
| Rows.ValueOfPixels | psfutil.py:141-142 | the value of the bits of v below `2^width` is v |
| Rows.PackRowFits | psfutil.py:199 | a 0/1 row of at most `width` pixels packs into rowSize bytes without `OverflowError` |
| Rows.PackThenUnpack | psfutil.py:139-142 | a packed 0/1 row unpacks to itself: packing is the inverse of the reader's unpacking |
| Rows.PackedPaddingZero | psfutil.py:139-140 | the packed bytes keep every padding bit at zero |
| Rows.UnpackThenPack | psfutil.py:139-142 | row bytes whose padding bits are zero survive unpacking and repacking unchanged |
| Rows.PackFullRowOfFive | psfutil.py:137-140 | a full row of the 8x5 example packs into `0b11111000` |
| Rows.ConcatAt | psfutil.py:141-143 | in the pixel list, pixel x of row y sits at index `y * width + x` |
| Rows.ConcatBinary | psfutil.py:142 | rows of 0s and 1s make a pixel list of 0s and 1s |
| Decoder.U32At | psfutil.py:120-126 | a 4-byte little-endian header field is below `2^32` |
| Decoder.RowSize | psfutil.py:133 | `charSize // height` equals `(width + 7) // 8` and holds `width` bits |
| Decoder.RowList | psfutil.py:136-142 | each of the n decoded rows has `width` pixels, all 0 or 1 |
| Decoder.GlyphRows | psfutil.py:136-142 | a decoded glyph has `n * width` pixels, all 0 or 1 |
| Decoder.ReadRow | psfutil.py:141-142 | the pixel loop yields bits `width - 1` down to 0 of the row value |
| Decoder.ReadGlyph | psfutil.py:135-142 | the row loop of glyph i0 yields exactly that glyph's decoded rows, top to bottom |
| Decoder.ReadRun | psfutil.py:153-158 | the inner `while` collects the bytes up to the first separator and returns it and the position after it, or fails on running off the end |
| Decoder.AssignChars | psfutil.py:162-163 | the map after the loop is the old map with every character of the run assigned i |
| Decoder.ReadEntry | psfutil.py:152-166 | the entry loop's result and map are those of the entry walk |
| Decoder.ReadTable | psfutil.py:150-166 | the table loop fails exactly when the walk does, with the same error, and otherwise leaves the walk's map |
| Decoder.ReadGlyphs | psfutil.py:134-143 | the glyph loop adds exactly the `length` decoded glyphs, in order, and `addGlyph` never fails in it |
| Decoder.ReadPsf | psfutil.py:114-174 | the method returns exactly the font `Decode` describes, or exactly its error |
| Decoder.Psf1Prefix | psfutil.py:116 | the first two bytes read as `0x0435` exactly when they are `35 04` |
| Decoder.Psf2Prefix | psfutil.py:119 | the first four bytes read as `0x864AB572` exactly when they are `72 B5 4A 86` |
| Decoder.DecodeMagic | psfutil.py:116-119 | a PSF1 prefix gives the PSF1 error (tested first); neither prefix gives the bad-magic error; every font read starts with the PSF2 prefix |
| Decoder.DecodeErrorKinds | psfutil.py:114-174 | the reader fails only with the PSF1, bad-magic, charSize, zero-height, no-table or truncated-table errors |
| Decoder.DecodeErr | psfutil.py:114-174 | each outcome exactly when every earlier test passed and its own failed, in the source's order: PSF1 magic; neither magic; charSize not `height * ((width + 7) // 8)`; zero height (the division at line 133); unicode flag clear; table walk runs off the end; otherwise the read succeeds |
| Decoder.DecodeTruncated | psfutil.py:145-158 | a read fails on a truncated table exactly when the magic, size and flag tests pass, there is a glyph, and fewer than `length` `PSF2_SEP` bytes lie from `headerSize + charSize * length` to the end of the file (none when that start is past the end) |
| Decoder.BadCharSizeExample | psfutil.py:129 | a PSF2 header claiming height 8, width 8 and charSize 2 is rejected for its charSize |
| Decoder.DecodeHeader | psfutil.py:120-130 | a font read has the header fields at offsets 4 to 28, a charSize equal to `height * ((width + 7) // 8)`, a nonzero height and the unicode flag |
| Decoder.DecodeGlyphs | psfutil.py:134-143 | a font read holds exactly `length` glyphs, each of `height * width` pixels that are 0 or 1 |
| Decoder.GlyphRowsAt | psfutil.py:141-143 | pixel x of row y sits at index `y * width + x` of the glyph |
| Decoder.DecodeRowPixel | psfutil.py:138-142 | pixel x of row y of glyph i is bit `7 - x % 8` of byte `headerSize + charSize * i + rowSize * y + x / 8` |
| Decoder.GlyphPixel | psfutil.py:136-142 | the same, at index `y * width + x` of the glyph's pixel list |
| Decoder.PixelOfGlyph | psfutil.py:136-142 | the same rule for glyph i laid out by the header's row size |
| Decoder.DecodePixel | psfutil.py:134-143 | in a font read, pixel `y * width + x` of glyph i is bit `7 - x % 8` of byte `headerSize + charSize * i + rowSize * y + x / 8` of the file, whenever the file holds that row |
| Decoder.DecodeCharMap | psfutil.py:145-166 | the map comes from a walk from `headerSize + charSize * length` that consumes exactly `length` `PSF2_SEP` bytes and ends just after one; every value is below `length` |
| Decoder.DecodeCharMapLast | psfutil.py:145-166 | cut the table into its `length` entries and their runs as the walk does: a character is in the map exactly when some entry holds it in a run that decodes, and it maps to glyph j exactly when entry j is the last entry holding it |
| Decoder.WalkFontBounds | psfutil.py:147-166 | a whole-table walk consumes `length` `PSF2_SEP` bytes from the table start and maps only to glyphs below `length` |
| Encoder.WriterRowSizeAgrees | psfutil.py:179 | the writer's `width // 8 + (1 if width % 8 else 0)` equals the constructor's `(width + 7) // 8` |
| Encoder.JoinedSome | psfutil.py:181-199 | the output is produced exactly when no piece overflows |
| Encoder.JoinedAt | psfutil.py:181-199 | pieces of c bytes each lie end to end, piece j at bytes `c * j` to `c * j + c` |
| Encoder.U32FieldsSome | psfutil.py:182-189 | the header is written exactly when every field is below `2^32` |
| Encoder.U32FieldsAt | psfutil.py:182-189 | each header field takes four bytes, and field k reads back from bytes `4k` to `4k + 3` |
| Encoder.RowsBytesSome | psfutil.py:192-199 | a glyph's rows are written exactly when every row packs without overflow |
| Encoder.RowsBytesAt | psfutil.py:192-199 | written rows take exactly rowSize bytes each, and row y is the packed row y |
| Encoder.GlyphsBytesSome | psfutil.py:191-199 | the glyphs are written exactly when each glyph's rows are |
| Encoder.GlyphsBytesAt | psfutil.py:191-199 | written glyphs take exactly `charSize` bytes each, and glyph i is glyph i's rows |
| Encoder.RowBitsBinary | psfutil.py:193 | a row cut from a 0/1 glyph holds at most `width` pixels, all 0 or 1 |
| Encoder.EncodeOk | psfutil.py:176-199 | the write succeeds exactly when PSF2 is asked for, every header value is below `2^32` and every row packs; it fails only with the PSF1-export or overflow errors; it fails with the PSF1-export error exactly when PSF1 is asked for; for 0/1 glyphs it succeeds exactly when the header values fit |
| Encoder.EncodeLayout | psfutil.py:178-199 | the output is the eight header values (magic, version, 32, flags, length, charSize, height, width), each 4 bytes little-endian, then the glyph bytes |
| Encoder.EncodeLength | psfutil.py:179-199 | the output is `32 + len(glyphs) * charSize` bytes |
| Encoder.PackRowAsWritten | psfutil.py:194-199 | the packing as written yields rowSize bytes when it succeeds |
| Encoder.PackRowAsWrittenRejects | psfutil.py:198 | as written, every row of a font at least two pixels wide fails with a negative shift count |
| Encoder.PackRowAsWrittenLoses | psfutil.py:194-199 | as written, a one-pixel row `[1]` is written as `0x01` and reads back as `[0]` |
| Encoder.WriteHeader | psfutil.py:182-189 | the header statements produce exactly the fields' 4-byte little-endian forms in order, or the overflow |
| Encoder.WriteRow | psfutil.py:193-199 | the row loop and `to_bytes` produce exactly the packed row, or the overflow |
| Encoder.WriteGlyph | psfutil.py:192-199 | the loop over y produces exactly the glyph's packed rows in order |
| Encoder.WriteGlyphs | psfutil.py:191-199 | the loop over the glyphs produces exactly every glyph's rows in order |
| Encoder.WritePsf | psfutil.py:176-199 | the method produces exactly `Encode` of the font's fields |
| RoundTrip.WritableEncodes | psfutil.py:176-199 | a font of `length` 0/1 glyphs of `height * width` pixels, with header values below `2^32`, is written |
| RoundTrip.FieldReadBack | psfutil.py:120-126 | header field k of the written bytes reads back at the reader's offset `4k`, whatever follows |
| RoundTrip.EncodedMagic | psfutil.py:116-119 | the written bytes pass the reader's magic checks as PSF2 and are not taken for PSF1 |
| RoundTrip.EncodedHeader | psfutil.py:116-126 | the reader parses back the written header: version, 32, flags, length, charSize, height, width |
| RoundTrip.ConcatRowsOf | psfutil.py:141-143 | cutting a glyph into its rows and laying them end to end gives it back |
| RoundTrip.RowInFile | psfutil.py:138 | the bytes the reader slices for row y of glyph i are exactly the bytes the writer packed that row into |
| RoundTrip.RowReadBack | psfutil.py:138-142 | row y of glyph i reads back as the row the writer took from the glyph |
| RoundTrip.GlyphReadBack | psfutil.py:134-143 | glyph i reads back as written |
| RoundTrip.EncodedGlyphs | psfutil.py:134-143 | every glyph of a writable font reads back as written |
| RoundTrip.ReadBackWritten | psfutil.py:114-174 | when a table follows the written bytes, the reader returns the written font with the table's map |
| RoundTrip.WalkWrittenFont | psfutil.py:147-158 | with nothing appended, the table walk over the written bytes succeeds with an empty map only for zero glyphs, and otherwise runs off the end |
| RoundTrip.DecodedWritable | psfutil.py:114-143 | every font the reader returns can be written: one 0/1 glyph of `height * width` pixels per slot, and every header value below `2^32` |
| RoundTrip.WritableOfFields | psfutil.py:176-199 | a font whose glyphs fill every slot with `height * width` pixels of 0 or 1, and whose header values are below `2^32`, is writable |
| RoundTrip.GlyphIdempotence | psfutil.py:114-199 | writing a font the reader returned and reading the bytes again, whatever follows them, gives back the same header fields and the same glyphs |
| RoundTrip.WrittenFontUnreadable | psfutil.py:114-174 | the reader rejects the written bytes alone for zero height, a clear unicode flag, or any glyph (no table was written); otherwise it returns the font with an empty map |

## Left out

- `getArgs`, `command_show` and `command_ttf2psf` (lines 15-67, 208 onward): command-line plumbing, file I/O, and fontTools/PIL rendering with a floating-point threshold.
- `renderGlyph`, `__repr__` and `__str__` (lines 97-112): `print`-based display only.
- The unicode-table emission loop of `writePSF` (lines 201-205): it only prints and writes no bytes. `font.charMap.keys()[i1]` would also raise in Python 3.
- The `print` and `sys.exit` side effects (lines 117, 166, 177): they are failure values, or a skipped run for the warning at line 166. The warning's text, with its stale `i0`, is not modelled.
- The PSF1 constants other than the magic number (lines 74-79): nothing in the core uses them.
- `PSF2_MAXVERSION` (line 83): the reader never compares the version with it, so neither does the model.
- Encoder.WritePsf: the charSize field is written as 4 bytes (line 187 raises `TypeError` as written), the rows are packed as intended rather than as written (lines 194-198, see Findings), and the bytes are returned rather than discarded.
- Decoder.ReadEntry: the warning printed for a run that is not UTF-8 is not modelled; only the skip is.
- RoundTrip.GlyphIdempotence: read, write, read again gives back the header and the glyphs only; the character map cannot come back, because the writer emits no table (see `RoundTrip.WrittenFontUnreadable`).
- RoundTrip.ReadBackWritten: the writer emits no table, so the read-back is stated for the written bytes followed by a table the walk accepts.
- The fields of `Psf` and `FontImage` (version, flags, length, height, width) are `nat`: a font with a negative field cannot be expressed, so the `OverflowError` that `to_bytes` raises for one in `writePSF` is not modelled.
- Encoder.WriteRow: a row is combined with `rowInt * 2 + rowBit`, not `(rowInt << 1) | rowBit`; the two agree for pixels 0 and 1, but a pixel above 1 is added in full and can raise the overflow where `|` would not.
- `charMap` is a `map<char, nat>`: the insertion order of the source's dict is not kept.
- Font.Psf.AddGlyph: like the source, it does not check that pixels are 0 or 1; negative pixel values cannot be expressed because pixels are `nat`.

## Findings

| source | as written | input that shows it | evidently intended | confidence | as-written member | corrected member |
|---|---|---|---|---|---|---|
| psfutil.py:194-198 | `rowInt << 1` and `rowInt << rowSize - font.width` discard their results, so the row is the sum of its pixels; the final shift subtracts a pixel count from a byte count | a one-pixel font whose pixel is 1 is written as `0x01`, which the reader unpacks as `[0]`; any font at least two pixels wide raises "negative shift count" on its first row (with line 187 corrected) | `rowInt = rowInt * 2 + rowBit` for each pixel (the same as `(rowInt << 1) \| rowBit` for pixels 0 and 1; the model keeps `*` and `+`, so a pixel above 1 can overflow), then `rowInt <<= rowSize * 8 - width`: the inverse of the unpacking at lines 139-142 | not executed | Encoder.PackRowAsWrittenLoses | Rows.PackThenUnpack |
