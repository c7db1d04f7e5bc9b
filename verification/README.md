# Encoders and stores of the printer firmware, in Dafny

A model of the data formats the firmware writes and reads, with proofs that what is written is read
back. Every format has a reader written from its standard; the writers follow the C++ and C code
branch by branch, with its loops, tables, buffers and limits.

- **QR codes** (`src/qrcodegen.cpp`): arithmetic in GF(2^8), Reed-Solomon division and its minimum
  distance, interleaving, the zigzag, function patterns, masks, penalty, segments, padding. The main
  result is `QrEncode.EncodeText`: the finished grid alone, read by `QrEncode.ReadSymbol` (format bits,
  mask, zigzag, de-interleaving, segments; ISO/IEC 18004 sections 7.4 to 7.8), gives back the text, in the smallest
  version, at the highest level that costs no version, under the lowest-numbered best mask.
- **zlib and PNG** (`include/stb_image_write.h`): the LZ77 matcher, bit output, stored fallback and
  checksum against `Inflate.ZlibDecode` (RFC 1950, RFC 1951); line filters, CRC-32 and chunks against
  `Png.PngDecode` (RFC 2083). Main results: `Zlib.Compress` and `Png.WritePngToMem`.
- **Run-length writers** (same file): TGA packets behind a 64-byte buffer, HDR scanlines. Main results:
  `Tga.WriteTga` and `Hdr.WriteHdrScanline`.
- **HTTP** (`include/HTTPRequest.hpp`): the chunked-body state machine fed by arbitrary reads against a
  one-pass reading, the grammar of chunked bodies with extensions and trailer, and header fields printed
  and parsed (RFC 7230 sections 3.2 and 4.1). Main results: `HttpChunked.ReceiveBody`,
  `HttpGrammar.PlainIffEnds` with `RfcBodyDecodes`, and `HttpHeaders.RoundTrip`.
- **INI store** (`src/dictionary.cpp`, `src/iniparser.cpp`, `src/MakerbaseParseIni.cpp`): a slot table
  that refines a map, a printer and a line parser that undo each other. Main results:
  `Dictionary.Dictionary.Set`, `IniRoundTrip.DumpThenLoad` with `RoundTrip`, `MksIni.MksiniUpdate`.

What writer and reader share (code tables, words, masks, character classes, orders) is fixed apart from both, in
literals or closed forms, by `QrStandard`, `QrWords`, `QrCoding`, `QrMaskPicture`, `QrScore`, `DeflateStandard`,
`PngStandard`, `HttpWire` and `IniFile`; `DeflateStandard.KnownStream` and `KnownStoredStream` check the reader on
known streams.

Objects the code changes in place are classes (`QrCode`, `BitBuffer`, `BitWriter`, `ImageWriter`,
`ChunkDecoder`, `Dictionary`, `Buffer`); fixed buffers and tables are arrays, addresses into them positions in
sequences; errors and exceptions are results. Verify with `dafny verify dfyconfig.toml`.

## Where the code differs from what one expects

- `Zlib.EmptyStreamFails`: compressing no bytes takes the stored fallback, which writes no block;
  the stream is rejected by a reader. Every other input round-trips.
- `Tga.WriteTga`: a width or height of 65536 or more is truncated in the header, so the file does not
  decode to the image; all smaller images do.
- `Tga.PacketLength`: a raw packet ends before the first pixel that equals the last but one, not the last, so
  two equal pixels may stand in it.
- `IniFile.LastLine`: a single character without a newline at the end of a file is ignored.
- `HttpGrammar.EmptySizeEndsBody`, `WrappedSizeEndsBody`, `MissingEnd`: the decoder completes texts that
  RFC 7230 does not allow: an empty size line and one of 2^64 count as size zero, and nothing has to follow
  size zero (`0\r\nX` decodes). `CompleteIsRfcBody` says exactly which completed texts are bodies.
- `HttpGrammar.ExtensionBodyIsThrown`: chunk extensions, which section 4.1.1 of RFC 7230 tells a recipient
  to ignore, are thrown as invalid digits. `RfcBodyDecodes` says exactly which bodies decode.
- `HttpChunked.CutShort`: a body that the server cuts short is handed over like a complete one, exactly when
  `DecodeSize(..).Partial?`, that is when the size line that ends it has not come (`PartialIffCut`).
- `HttpHeaders.NoFieldsIsRejected`: a response without header fields is rejected.
- `IniRoundTrip.LostKey`, `RenamedKey`: a key without an entry for its section is lost by a dump when
  some section has an entry, and comes back with a leading colon when none has. A section with a value
  and a key without one come back changed too.
- `IniRoundTrip.QuotedRemarkIsCut`: a quoted value may hold `;` or `#`; it is dumped without quotes and cut
  off by the next load, so any update truncates it. A value that ends in a backslash does not load
  back, since its line counts as continued (`IniLine.LineGoesElsewhere`). `IniLine.LineLoadsBack` and `IniRoundTrip.RoundTrip` say exactly what survives.
- `MksIni.SetKeepsSections`: a section name with a colon leaves a key without section entry, unless
  its first part is a section already.
- `MksIni.MksiniUpdate`: updating a file that has one line in error replaces it by an empty file,
  because saving opens the file before the missing store is noticed.

## Model

| member | source | states |
|---|---|---|
| GaloisField.MulLinearRight | src/qrcodegen.cpp:740-749 | the product is linear in its second factor over XOR |
| GaloisField.MulComm | src/qrcodegen.cpp:740-749 | the product is commutative, from linearity and not by enumeration |
| GaloisField.MulAssoc | src/qrcodegen.cpp:740-749 | the product is associative |
| GaloisField.FrobeniusIdentity | src/qrcodegen.cpp:740-749 | squaring eight times gives every element back |
| GaloisField.NonZeroOrder | src/qrcodegen.cpp:740-749 | the 255th power of every element but zero is 1, so every such element has an inverse |
| GaloisField.MulCancel | src/qrcodegen.cpp:740-749 | a product is zero exactly when a factor is |
| GaloisField.PowersDistinct | src/qrcodegen.cpp:714-721 | the first 255 powers of 2, the roots the divisor is built from, are distinct |
| ReedSolomon.Multiply | src/qrcodegen.cpp:740-749 | the shift-and-XOR loop on a wider integer computes the field product |
| ReedSolomon.GeneratorIsProduct | src/qrcodegen.cpp:702-723 | the generator of a degree evaluates to the product of all (x - 2^i) with i below the degree |
| ReedSolomon.GeneratorRoots | src/qrcodegen.cpp:702-723 | the generator is zero exactly at those powers of 2 |
| ReedSolomon.ComputeDivisor | src/qrcodegen.cpp:702-723 | the in-place loop gives the generator without its leading term, for degrees 1 to 255, and refuses the others |
| ReedSolomon.ComputeRemainder | src/qrcodegen.cpp:726-737 | the shift-register loop computes the remainder specified by recursion on the data |
| ReedSolomon.DivisionTheorem | src/qrcodegen.cpp:726-737 | data followed by the remainder is quotient times divisor, at every point of the field |
| ReedSolomonCode.BlockIsCodeword | src/qrcodegen.cpp:702-737 | data followed by its ECC bytes is zero at every root of the generator |
| ReedSolomonCode.PowerSumsDetermine | src/qrcodegen.cpp:702-749 | values at distinct points whose first power sums vanish are all zero |
| ReedSolomonCode.MinimumDistance | src/qrcodegen.cpp:702-749 | two different codewords of at most 255 bytes differ in more places than there are ECC bytes |
| ReedSolomonCode.BlockDistance | src/qrcodegen.cpp:702-749 | blocks of different data of equal length differ in at least degree + 1 places |
| ReedSolomonCode.CodewordsAreBlocks | src/qrcodegen.cpp:726-737 | ECC bytes make a codeword exactly when they are the computed ones |
| ReedSolomonCode.ChangesAreDetected | src/qrcodegen.cpp:702-749 | one to degree changed bytes never give a codeword |
| ReedSolomonCode.ChangesAreCorrectable | src/qrcodegen.cpp:702-749 | a block with at most half that many changes comes from one data sequence only |
| QrCoding.DoubledByPolynomial | src/qrcodegen.cpp:740-749 | doubling shifts and, beyond 127, adds 0x1D; one is neutral |
| QrCoding.FirstGenerators | src/qrcodegen.cpp:702-723 | the generators of degree 1 and 2 are x + 1 and x^2 + 3x + 2, so the roots start at 1 |
| QrSegment.BitBuffer.AppendBits | src/qrcodegen.cpp:823-831 | appends the value, most significant bit first, when it fits; refuses it otherwise and changes nothing |
| Bits.HighBitAt | src/qrcodegen.cpp:823-831 | place i of a value of len bits, highest first, has weight 2^(len - 1 - i) |
| QrSegment.MakeNumeric | src/qrcodegen.cpp:79-99 | the loop with accumulator packs groups of three digits; refuses a text with another character |
| QrSegment.MakeAlphanumeric | src/qrcodegen.cpp:102-122 | the loop packs pairs of characters; refuses a text with a character outside the set |
| QrSegment.MakeBytes | src/qrcodegen.cpp:69-76 | eight bits per byte and the byte count; refuses more than INT_MAX bytes |
| QrSegment.MakeSegments | src/qrcodegen.cpp:125-140 | no segment for the empty text, otherwise one in the narrowest mode that holds every character; fails exactly when that is the byte mode and there are more than INT_MAX bytes |
| QrReader.DigitsReadBack | src/qrcodegen.cpp:79-99 | reading the groups of digits gives the digits back, wherever they stand |
| QrReader.AlphanumericReadBack | src/qrcodegen.cpp:102-122 | reading the pairs gives the text back |
| QrReader.SegmentsReadBack | src/qrcodegen.cpp:290-304 | mode, count and data fields of all segments, with a terminator behind, read back to the joined texts |
| QrCoding.ModeIndicators | src/qrcodegen.cpp:62-66 | the four bits of every mode indicator |
| QrCoding.CountWidths | src/qrcodegen.cpp:57-65 | the width of the count field of every mode, for versions up to 9, up to 26, and beyond |
| QrCoding.CharacterValues | src/qrcodegen.cpp:230-230 | the characters of the alphanumeric mode are the digits, the upper-case letters and nine signs, with the values 0 to 44 in this order |
| QrEncode.GetTotalBits | src/qrcodegen.cpp:179-193 | the bit total, or -1 when a count does not fit its field or the total passes INT_MAX |
| QrEncode.FindVersion | src/qrcodegen.cpp:264-282 | the smallest version in the range that holds the segments, or none when none does |
| QrEncode.BoostLevel | src/qrcodegen.cpp:284-288 | the level is never below the requested one and is the highest that still fits |
| QrEncode.ConcatenateSegments | src/qrcodegen.cpp:290-297 | the bit buffer holds the fields of every segment in order |
| QrEncode.PadToCapacity | src/qrcodegen.cpp:299-308 | terminator, zeros to a byte boundary and alternating pad bytes up to exactly the capacity |
| QrEncode.PaddingTerminates | src/qrcodegen.cpp:299-308 | a reader stops at the padding for every number of bits left |
| QrCoding.PadCodewords | src/qrcodegen.cpp:307-308 | the pad codewords are 11101100 and 00010001 |
| QrCoding.PaddingShape | src/qrcodegen.cpp:299-308 | four zeros, or what is left; zeros to the next byte boundary; pad codewords, 0xEC first |
| QrCoding.CodewordBitsInOrder | src/qrcodegen.cpp:310-313 | the bits of codewords 0xEC and 0x11, highest first |
| QrBits.PackBits | src/qrcodegen.cpp:310-313 | the packed codewords have exactly the bits of the buffer |
| QrBits.UnpackRoundTrip | src/qrcodegen.cpp:310-313 | packing the bits of codewords gives them back |
| QrEncode.MakeDataCodewords | src/qrcodegen.cpp:290-313 | the data codewords have exactly the bits of all segments followed by the padding, and fill the capacity |
| QrEncode.EncodeAt | src/qrcodegen.cpp:290-317 | any segments that fit a version and level: the finished grid holds exactly their bits and the padding; when they carry texts, reading the grid gives the joined texts |
| QrEncode.EncodeSegments | src/qrcodegen.cpp:259-317 | for any segments: errors exactly for bad arguments or when nothing fits; version smallest, level highest, mask as asked or best, the grid holds exactly their bits and the padding, and reads back to the texts they carry |
| QrEncode.EncodeBinary | src/qrcodegen.cpp:253-256 | bytes in byte mode, zero included: the grid reads back to the bytes |
| QrEncode.EncodeText | src/qrcodegen.cpp:247-250 | the whole round trip for a text: smallest version, highest level, best mask, and the grid reads back to the text |
| QrBlocks.PlacesAreBijective | src/qrcodegen.cpp:519-531 | the place a byte of a block is written to determines block and column |
| QrBlocks.EveryPlaceIsUsed | src/qrcodegen.cpp:519-531 | every place of the result comes from a byte that is written; only the padding of short blocks is not |
| QrCoding.ColumnsInOrder | src/qrcodegen.cpp:519-531 | a byte is written before another exactly when its column comes first, or its block in the same column |
| QrCoding.ShortBlocksFirst | src/qrcodegen.cpp:504-508 | symbol 5-Q has two blocks of fifteen data codewords, then two of sixteen |
| QrBlocks.SplitBlocks | src/qrcodegen.cpp:504-517 | the blocks are the consecutive pieces of the data, padded when short, with their ECC bytes |
| QrBlocks.AddEccAndInterleave | src/qrcodegen.cpp:498-533 | exactly the raw number of bytes, each block byte at its place; refuses another number of data bytes |
| QrBlocks.ReadBlockIsCodeword | src/qrcodegen.cpp:498-533 | de-interleaving a block gives its data followed by its ECC bytes |
| QrBlocks.ReadDataIsData | src/qrcodegen.cpp:498-533 | de-interleaving and dropping ECC gives the data back |
| QrBlocks.DamageIsCorrectable | src/qrcodegen.cpp:498-533 | what is received with no block changed in more than half its ECC bytes comes from one data sequence and one codeword sequence only |
| QrTables.LayoutIsValid | src/qrcodegen.cpp:695-699 | every version and level gives a layout whose blocks have data and at most 255 bytes |
| QrStandard.CodewordsAreStandard | src/qrcodegen.cpp:680-692 | every version has the number of codewords that ISO/IEC 18004 lists |
| QrStandard.CapacityIsStandard | src/qrcodegen.cpp:695-699 | every version and level has the number of data codewords that ISO/IEC 18004 lists |
| QrScan.ScanAtRank | src/qrcodegen.cpp:536-558 | a closed formula for the step at which the zigzag visits a cell |
| QrScan.ScanVisitsOnce | src/qrcodegen.cpp:536-558 | for every odd size the zigzag visits each cell outside column 6 exactly once and no other |
| QrScan.WalkAt | src/qrcodegen.cpp:540-557 | which cell the zigzag visits at every step: the column of each pair, and its rows upward or downward by turns |
| QrScan.ScanStarts | src/qrcodegen.cpp:540-557 | on every symbol it starts in the lower right corner and goes left |
| QrScan.ScanNeighbours | src/qrcodegen.cpp:540-557 | consecutive cells are never more than one row apart |
| QrScan.ScanGoesLeft | src/qrcodegen.cpp:540-557 | pairs of columns are filled from right to left, each before the next begins |
| QrGrid.ReadPainted | src/qrcodegen.cpp:536-558 | bits painted into distinct cells are read back in the same order |
| QrCapacity.RegionSize | src/qrcodegen.cpp:680-692 | finder, timing, alignment, format and version areas cover exactly as many cells as the raw module count takes off the grid, overlaps with the timing lines counted once |
| QrFreeCells.FreeIsOutside | src/qrcodegen.cpp:387-462 | a cell is free exactly when it lies in the grid and outside that region: every function module lies in the region and every cell of it is drawn |
| QrFreeCells.FreeCellsCount | src/qrcodegen.cpp:680-692 | in every version and level the zigzag meets exactly the raw number of data modules |
| QrFreeCells.RemainderBits | src/qrcodegen.cpp:680-692 | the number of bits no codeword fills, 0, 3, 4 or 7 by version |
| QrFreeCells.RawModulesRange | src/qrcodegen.cpp:691-691 | 208 to 29648 data modules, as asserted there |
| QrCode.QrCode.SetFunctionModule | src/qrcodegen.cpp:485-490 | sets the module and marks it, and changes nothing else |
| QrCode.QrCode.DrawFunctionPatterns | src/qrcodegen.cpp:387-413 | timing, finder, alignment, format and version patterns, drawn and marked in this order |
| QrCode.QrCode.DrawFormatBits | src/qrcodegen.cpp:416-440 | both copies of the format bits and the dark module, and nothing else |
| QrCode.QrCode.DrawVersion | src/qrcodegen.cpp:443-462 | both copies of the version bits from version 7 on |
| QrCode.QrCode.GetAlignmentPatternPositions | src/qrcodegen.cpp:664-677 | the positions counted down from the far edge are the evenly spaced ones |
| QrStandard.CentersAreStandard | src/qrcodegen.cpp:664-677 | the positions of all forty versions are those that ISO/IEC 18004 lists |
| QrCode.QrCode.DrawCodewords | src/qrcodegen.cpp:536-560 | bit i goes to the i-th free cell of the zigzag, function cells keep their value; refuses a wrong number of codewords |
| QrCode.QrCode.ApplyMask | src/qrcodegen.cpp:563-584 | inverts the data cells the mask selects and no function cell; refuses masks outside 0 to 7 |
| QrMaskPicture.MaskOnGrid | src/qrcodegen.cpp:563-583 | each mask inverts the modules of its picture, six columns wide, repeated over the grid, and no function module |
| QrMask.MaskTwice | src/qrcodegen.cpp:563-584 | applying a mask twice restores the grid |
| QrMask.MaskThenDraw | src/qrcodegen.cpp:563-584 | masking and drawing on function cells commute |
| QrMask.DrawReplaces | src/qrcodegen.cpp:416-440 | drawing the format cells again leaves no trace of the earlier drawing |
| QrLook.FindersShow | src/qrcodegen.cpp:465-474 | in every finished symbol, whatever codewords and mask, the three finder patterns are rings: light exactly at distance 2 and 4 of their centers |
| QrLook.TimingShows | src/qrcodegen.cpp:387-392 | the timing modules of a finished symbol alternate by parity, also where an alignment pattern crosses them |
| QrLook.AlignmentsShow | src/qrcodegen.cpp:399-408 | every alignment pattern of a finished symbol is light exactly at distance 1 of its center |
| QrLook.DarkModuleShows | src/qrcodegen.cpp:434-440 | the module beside the second format copy of a finished symbol is dark |
| QrFormat.FormatRoundTrip | src/qrcodegen.cpp:416-425 | level and mask are recovered from the format word |
| QrFormat.FormatIsReadBack | src/qrcodegen.cpp:427-440 | the format word is read back from either of the two drawn copies |
| QrWords.FormatIsStandard | src/qrcodegen.cpp:416-424 | the words of all levels and masks are the 32 that ISO/IEC 18004 lists |
| QrWords.FormatDistance | src/qrcodegen.cpp:416-424 | different format words differ in at least seven of fifteen bits |
| QrVersion.VersionRoundTrip | src/qrcodegen.cpp:443-462 | the version is recovered from the version word |
| QrVersion.VersionReadsBack | src/qrcodegen.cpp:443-462 | either version block of the finished symbol names the version, from version 7 on, whatever codewords and mask |
| QrWords.VersionIsStandard | src/qrcodegen.cpp:443-452 | the words of versions 7 to 40 are those that ISO/IEC 18004 lists |
| QrWords.VersionDistance | src/qrcodegen.cpp:443-452 | words of different versions differ in at least eight of eighteen bits |
| QrCode.QrCode.TryMask | src/qrcodegen.cpp:341-350 | the grid during a trial is the masked codewords with matching format bits; undoing it leaves the codewords |
| QrCode.QrCode.ChooseMask | src/qrcodegen.cpp:338-351 | the lowest-numbered mask of minimal penalty, with the function cells unchanged and no mask left |
| QrCode.TrialFromStamp | src/qrcodegen.cpp:341-350 | a trial is the same grid whatever format bits the trials before have left, and masking again removes it |
| QrCode.Make | src/qrcodegen.cpp:320-359 | the final grid carries exactly one mask on interleaved codewords, the best or the asked one, with matching format bits |
| QrEncode.CodewordsReadBack | src/qrcodegen.cpp:536-584 | unmasking the final grid and reading it in zigzag order gives the codewords |
| QrEncode.SymbolReadsBack | src/qrcodegen.cpp:320-359 | both format copies, the mask, the zigzag and the interleaving of the final grid read back to level, mask and data codewords |
| QrEncode.SymbolIsCorrectable | src/qrcodegen.cpp:498-533 | the same for the layout of every version and level |
| QrPenalty.RunsMakeUpLine | src/qrcodegen.cpp:592-632 | the runs of a line spell the line, light first, and only the first may be empty |
| QrPenalty.RunsUnique | src/qrcodegen.cpp:592-632 | no other runs do |
| QrPenalty.AddHistory | src/qrcodegen.cpp:772-777 | the seven slots are the last seven runs of the line with its light border |
| QrPenalty.TerminateAndCount | src/qrcodegen.cpp:761-769 | the last two history updates complete the finder score of the bordered line |
| QrPenalty.ScanLine | src/qrcodegen.cpp:592-632 | the streaming score of a line is the sum of L - 2 over its runs of length L >= 5 plus 40 for every finder-like pattern among its bordered runs |
| QrScore.FinderScoreCounts | src/qrcodegen.cpp:752-758 | the finder part of the score of a line is the number of triples (position, n, side) where dark n, light n, dark 3n, light n, dark n stand as whole runs, with at least 4n light modules on that side and n on the other; no run lists, no histories |
| QrScore.RunScoreCounts | src/qrcodegen.cpp:596-601 | the run part is the number of places where five equal modules start, plus two for every run of at least five |
| QrScore.LineIsCounted | src/qrcodegen.cpp:592-610 | the score of a line between its light borders, as these counts |
| QrScore.PenaltyIsCounted | src/qrcodegen.cpp:587-660 | the whole score: these counts over all rows and columns, three for every 2x2 block of one color, and ten for every step of 5% that the number of dark modules is off one half |
| QrPenalty.BalanceIsSmallest | src/qrcodegen.cpp:645-657 | the balance term is the smallest k with (45 - 5k)% <= dark share <= (55 + 5k)% |
| QrPenalty.GetPenaltyScore | src/qrcodegen.cpp:587-660 | the loops compute the score defined by runs, blocks and balance, within the range the source asserts |
| QrPenalty.PenaltyBound | src/qrcodegen.cpp:587-660 | no symbol of up to 177 modules a side scores more than 2556858, so the asserted 2568888 is never passed |
| BitOutput.BitRev | include/stb_image_write.h:849-857 | the reversed code, written low bit first, is the code high bit first |
| BitOutput.BitWriter.Flush | include/stb_image_write.h:839-847 | whole bytes leave the accumulator and the bit stream is unchanged |
| Bits.LowBitAt | include/stb_image_write.h:880-882 | place i of a value, lowest first, has weight 2^i |
| BitOutput.BitWriter.Add | include/stb_image_write.h:880-881 | appends exactly the bits of the code; the 32-bit accumulator loses none |
| BitOutput.BitWriter.Huff | include/stb_image_write.h:884-888 | appends the fixed code word of the symbol (RFC 1951 section 3.2.6) |
| BitOutput.BitWriter.Pad | include/stb_image_write.h:976-978 | pads to the next byte boundary and no further |
| Matcher.CountMatch | include/stb_image_write.h:859-865 | the length of the common run, at most 258, over all that data allow |
| Matcher.FindMatch | include/stb_image_write.h:922-934 | the longest match of the chain inside the window, the last one among equals, or none below three bytes |
| Matcher.NextIsBetter | include/stb_image_write.h:941-955 | true exactly when a chain entry matches the next position longer |
| Matcher.PushPosition | include/stb_image_write.h:935-940 | the chain loses its older half when full, then ends with the position |
| DeflateStandard.WindowAndChains | include/stb_image_write.h:928-940 | a candidate lies at most 32767 bytes back, and a chain keeps at most twice the quality |
| Deflate.LengthCode | include/stb_image_write.h:960-960 | the code whose range holds the length, and 258 has the last code to itself |
| Deflate.DistanceCode | include/stb_image_write.h:963-963 | the code whose range holds the distance |
| DeflateStandard.LengthCodes | include/stb_image_write.h:901-902 | first length and extra bits of every length code in closed form, as in RFC 1951 section 3.2.5 |
| DeflateStandard.DistanceCodes | include/stb_image_write.h:903-904 | the same for the distance codes |
| DeflateStandard.FixedCodes | include/stb_image_write.h:883-888 | the fixed code words of RFC 1951 section 3.2.6, range by range |
| Deflate.ChooseMatch | include/stb_image_write.h:922-955 | the longest match in the chain of position i, last among equals, unless the next position has a longer one; i joins its chain and no other chain changes; the choice as one value |
| Deflate.WriteToken | include/stb_image_write.h:922-971 | the chosen match or the literal is what is written, with the code of its length and distance, and the chains after it |
| DeflateFormat.EmitMatch | include/stb_image_write.h:957-966 | a match appended to a stream makes an inflating reader copy those bytes, overlapping copies included |
| DeflateFormat.CopyMatchIsData | include/stb_image_write.h:957-966 | copying a match byte by byte continues the data it was found in |
| Deflate.WriteFixedBlock | include/stb_image_write.h:915-975 | the written block spells exactly the tokens chosen position by position, the last three bytes as literals, and inflates to exactly the data, for every chain length |
| Zlib.StoreBlocks | include/stb_image_write.h:985-999 | stored blocks of at most 32767 bytes for all the data |
| Zlib.StoredDecodes | include/stb_image_write.h:985-999 | an inflating reader gets the data from the stored blocks |
| Zlib.StoredSize | include/stb_image_write.h:985-999 | five bytes of overhead for every started 32767 bytes |
| Zlib.AdlerBlock | include/stb_image_write.h:1001-1008 | within a block of at most 5552 bytes the 32-bit sums never wrap and reduce to the modular ones |
| Zlib.ComputeAdler | include/stb_image_write.h:1001-1016 | the deferred reduction gives the checksum of RFC 1950 section 2.2 |
| Zlib.EmptyStreamFails | include/stb_image_write.h:985-999 | the stored fallback of empty data emits no block, and no reader accepts the stream |
| Zlib.Compress | include/stb_image_write.h:895-1020 | the output is header, the fixed-Huffman block of the chosen tokens or, when that is longer than len + 5*ceil(len/32767), the stored blocks, and checksum; it inflates to the input exactly when the input is not empty, and is at most len + 6 + 5*ceil(len/32767) bytes, for every quality |
| DeflateStandard.AdlerIsSums | include/stb_image_write.h:1001-1016 | the two checksums are one plus the sum of the bytes and the length plus the sum of all prefix sums, modulo 65521 |
| Crc.EightXor | include/stb_image_write.h:1071-1072 | eight steps of the bitwise division are linear over XOR |
| Crc.TableEntry | include/stb_image_write.h:1029-1065 | every stored constant is the remainder of its index |
| Crc.TableStep | include/stb_image_write.h:1071-1072 | one table step does the work of eight bit steps on the register |
| Crc.ComputeCrc | include/stb_image_write.h:1024-1075 | the table loop computes the bit-serial CRC-32 of the buffer range |
| PngStandard.EndChunk | include/stb_image_write.h:1205-1207 | the end chunk of every file is 0, 0, 0, 0, IEND, AE 42 60 82 |
| PngFilter.PaethIsNearest | include/stb_image_write.h:1083-1089 | the predictor is the neighbour nearest to a + b - c, ties going left, then up |
| PngFilter.OffsetPredicts | include/stb_image_write.h:1092-1125 | the mapped filter of the first line predicts what the requested one does with zeros above |
| PngStandard.FilteredByte | include/stb_image_write.h:1107-1122 | a filtered byte of every type as an equation on the byte and its neighbours to the left, above and above left |
| PngStandard.LineIsRow | include/stb_image_write.h:1094-1096 | line y holds row y of the pixels, or row y from the bottom when flipped |
| PngFilter.EncodePngLine | include/stb_image_write.h:1092-1125 | the line buffer holds the line under the requested filter, for every stride, flip and line |
| PngFilter.FilterIsUndone | include/stb_image_write.h:1092-1125 | a reader recovers a filtered line byte by byte (RFC 2083 section 6) |
| PngFilter.FilterLine | include/stb_image_write.h:1146-1170 | the forced filter, or the lowest-numbered one with the smallest estimate in a 32-bit int |
| PngFilter.CostIsSum | include/stb_image_write.h:1157-1160 | the estimate of a line below 2^24 bytes is the sum of the magnitudes of its filtered bytes |
| PngFilter.FilterPicture | include/stb_image_write.h:1144-1174 | whatever filters are used, unfiltering the buffer gives every line of the picture in writing order |
| Png.ChunkReadBack | include/stb_image_write.h:1185-1207 | a chunk with length, tag, data and checksum is read back and its checksum accepted |
| Png.WriteCrc | include/stb_image_write.h:1077-1081 | writes the checksum of the tag and data just written |
| PngStandard.Names | include/stb_image_write.h:1132-1206 | signature and chunk names in characters |
| PngStandard.HeaderIs | include/stb_image_write.h:1188-1195 | width and height, highest byte first, eight bits a sample, the colour type of one to four components, three zeros |
| Png.WriteFile | include/stb_image_write.h:1180-1210 | exactly 57 + zlen bytes: signature, IHDR, one IDAT and IEND |
| Png.WritePngToMem | include/stb_image_write.h:1128-1212 | reading the file gives the dimensions, the pixel size and all lines, for every stride, flip, forced or estimated filter and quality |
| ImageOutput.ImageWriter.Write1 | include/stb_image_write.h:399-404 | the 64-byte buffer passes on the same bytes as plain appending |
| ImageOutput.ImageWriter.Write3 | include/stb_image_write.h:406-416 | three bytes at once, flushed before they would overflow the buffer |
| ImageOutput.ImageWriter.Flush | include/stb_image_write.h:386-392 | hands on what is buffered and loses nothing |
| Tga.PacketLength | include/stb_image_write.h:561-591 | a run packet takes all equal pixels; a raw packet ends one pixel before the first that equals its last but one; both stop at 128 pixels and the end of the row |
| Tga.WritePixel | include/stb_image_write.h:418-449 | a pixel is written blue first, alpha last; the reader has its own order |
| Tga.RawPacket | include/stb_image_write.h:593-598 | a raw packet decodes to its pixels, whatever follows |
| Tga.RunPacket | include/stb_image_write.h:599-603 | a run packet decodes to the repeated pixel |
| Tga.WriteRow | include/stb_image_write.h:559-604 | the packets of a row decode to the row, whichever the look-ahead chooses |
| Tga.WriteRows | include/stb_image_write.h:545-606 | the rows are written from the bottom up, or top down when flipped |
| Tga.WriteTga | include/stb_image_write.h:532-609 | reading the file gives the image exactly when both dimensions fit 16 bits |
| Hdr.DumpPacket | include/stb_image_write.h:664-670 | a dump of 1 to 128 bytes decodes to its bytes |
| Hdr.RunPacket | include/stb_image_write.h:656-662 | a run of 1 to 127 bytes decodes to the repeated byte |
| Hdr.WritePlane | include/stb_image_write.h:721-757 | the packets of a plane decode to the plane and no packet is empty; all nested loops end |
| Hdr.WriteHdrScanline | include/stb_image_write.h:672-759 | reading a scanline gives its pixels, flat or in four coded planes by width |
| HttpText.FindIsStable | include/HTTPRequest.hpp:1170-1173 | the first line end stays first when more text arrives |
| HttpChunked.HexStringToUint | include/HTTPRequest.hpp:870-878 | the value modulo the word size, or an error for a character that is no hexadecimal digit |
| HttpWire.DigitIsReadBack | include/HTTPRequest.hpp:576-585 | the sixteen digits in either case stand for 0 to 15 |
| HttpWire.OnlyTheseAreDigits | include/HTTPRequest.hpp:576-585 | and no other byte is a digit |
| HttpWire.HexIsReadBack | include/HTTPRequest.hpp:870-878 | a number printed in hexadecimal is read back, for every number |
| HttpChunked.PayloadStep | include/HTTPRequest.hpp:1145-1156 | taking payload out of the buffer does not change what any continuation amounts to |
| HttpChunked.ChunkDecoder.Receive | include/HTTPRequest.hpp:1140-1182 | after every read the state stands for all bytes received: read on with the body so far, return, or throw, as one pass over them does; the inner loop ends |
| HttpChunked.ReceiveBody | include/HTTPRequest.hpp:1073-1182 | what the caller gets from a whole run, response or exception, depends on the bytes and not on how they are split into reads |
| HttpChunked.CutShort | include/HTTPRequest.hpp:1078-1079 | when the server disconnects anywhere inside a body, the caller gets a response with the first part of the content |
| HttpGrammar.PartialIffCut | include/HTTPRequest.hpp:1078-1079 | it has been cut short exactly when the bytes end before the size line that ends the body |
| HttpChunked.BodyDecodes | include/HTTPRequest.hpp:1140-1182 | a body of chunks and a zero size decodes to the joined payloads, whatever comes behind |
| HttpWire.SentIsDecoded | include/HTTPRequest.hpp:1140-1182 | any payloads under their lengths printed in hexadecimal, with the last chunk 0, decode to the joined payloads |
| HttpChunked.CompleteIsBody | include/HTTPRequest.hpp:1140-1182 | only texts of chunks and a zero size, sizes taken modulo 2^64, decode completely |
| HttpGrammar.ChunksDecode | include/HTTPRequest.hpp:1140-1182 | chunks and the last size line of RFC 7230 section 4.1 decode to their payloads when no size line carries an extension, and are thrown otherwise |
| HttpGrammar.PlainIffEnds | include/HTTPRequest.hpp:1140-1182 | a text is a body of RFC 7230 without extensions, with a given content, exactly when it decodes to it, every size line met has a digit and states less than 2^64, and a trailer with an empty line follows the last one |
| HttpGrammar.RfcBodyDecodes | include/HTTPRequest.hpp:1140-1182 | a body of RFC 7230 decodes to its content exactly when it has no extension; otherwise it is thrown |
| HttpGrammar.CompleteIsRfcBody | include/HTTPRequest.hpp:1140-1182 | what the decoder completes is a body of RFC 7230 exactly when the size lines are proper and a trailer with an empty line follows |
| HttpGrammar.EmptySizeEndsBody | include/HTTPRequest.hpp:1170-1179 | an empty size line, which RFC 7230 does not allow, ends the body |
| HttpGrammar.WrappedSizeEndsBody | include/HTTPRequest.hpp:870-878 | a size line of 2^64 ends the body as well |
| HttpGrammar.MissingEnd | include/HTTPRequest.hpp:1178-1179 | size zero ends the body whatever follows, so a text without trailer and empty line behind it decodes and is no body |
| HttpGrammar.ZeroWithoutEnd | include/HTTPRequest.hpp:1178-1179 | such as size zero alone, or followed by a letter |
| HttpGrammar.ExtensionIsThrown | include/HTTPRequest.hpp:870-878 | a size line with a semicolon is thrown as an invalid digit |
| HttpGrammar.ExtensionBodyIsThrown | include/HTTPRequest.hpp:870-878 | a one-letter body with a chunk extension is a body of RFC 7230 and is thrown |
| HttpHeaders.EncodeHeaderFields | include/HTTPRequest.hpp:887-907 | prints all fields, or reports the error of the first field with an invalid name or value |
| HttpWire.FieldIsPrinted | include/HTTPRequest.hpp:903-903 | name, colon, blank, value, line end |
| HttpHeaders.ParseToken | include/HTTPRequest.hpp:736-749 | the longest run of token characters, or an error when it is empty |
| HttpWire.TokenIsNoDelimiter | include/HTTPRequest.hpp:519-539 | a token character is any visible one but the delimiters of RFC 7230 section 3.2.6 |
| HttpWire.FieldBytes | include/HTTPRequest.hpp:496-551 | a value holds tabs, blanks, visible characters and bytes from 128 on |
| HttpHeaders.ParseFieldValue | include/HTTPRequest.hpp:752-766 | the longest run of value characters without its trailing blanks |
| HttpHeaders.ParseFieldContent | include/HTTPRequest.hpp:770-801 | the value with its folded lines joined by a blank each |
| HttpWire.FoldIsJoined | include/HTTPRequest.hpp:770-799 | a field whose value goes on behind a line end and a blank or tab is read as one value, joined by a blank |
| HttpHeaders.ParseHeaderField | include/HTTPRequest.hpp:803-825 | name, value and end of the field, or the error of the first violation |
| HttpHeaders.ParseHeaderFields | include/HTTPRequest.hpp:1098-1131 | field after field until the text is used up, at least one |
| HttpHeaders.FieldReadBack | include/HTTPRequest.hpp:803-825 | a printed field is read back whole, its value trimmed, and the next line is not taken for a fold |
| HttpHeaders.FieldsReadBack | include/HTTPRequest.hpp:887-907 | a printed list is read back to its end, with the values trimmed |
| HttpHeaders.RoundTrip | include/HTTPRequest.hpp:887-907 | a printable list comes back unchanged exactly when it is not empty and no value has outer blanks |
| HttpHeaders.NoFieldsIsRejected | include/HTTPRequest.hpp:1098-1131 | a header section without fields, which RFC 7230 allows, is rejected |
| Dictionary.DictionaryHash | src/dictionary.cpp:118-135 | the loop computes the 32-bit hash |
| Dictionary.HashOfOneLetter | src/dictionary.cpp:118-137 | the hash of the text a is 0xCA2E9442 |
| Dictionary.OccupiedIsSize | src/dictionary.cpp:255-301 | the counter of occupied slots is the size of the map |
| Dictionary.Dictionary.constructor | src/dictionary.cpp:150-165 | an empty map in at least 128 slots |
| Dictionary.Dictionary.Get | src/dictionary.cpp:209-229 | the value of the key, null included, or the default when the key is absent |
| Dictionary.Dictionary.Grow | src/dictionary.cpp:68-101 | twice the slots, the same map |
| Dictionary.Dictionary.FreeSlot | src/dictionary.cpp:293-295 | the search from slot n with wrap-around ends at an empty slot |
| Dictionary.Dictionary.Set | src/dictionary.cpp:255-301 | the map with the key set to the value; keys stay distinct, hashes match and n counts the occupied slots |
| Dictionary.Dictionary.Unset | src/dictionary.cpp:314-348 | the map without the key |
| IniText.Buffer.Strip | src/iniparser.cpp:91-109 | the text without its outer blanks, and its length |
| IniText.Buffer.Lowercase | src/iniparser.cpp:45-57 | lower case of at most len - 1 characters |
| IniFile.LettersAreLowered | src/iniparser.cpp:45-58 | the 26 letters go to their lower-case forms |
| IniFile.OthersAreKept | src/iniparser.cpp:45-58 | all other characters stay |
| IniFile.LongNamesAreCut | src/iniparser.cpp:601-605 | a name that is set keeps at most 1024 characters |
| IniFile.BlankCharacters | src/iniparser.cpp:91-107 | blanks are space, tab, newline, vertical tab, form feed and carriage return |
| IniText.IniparserLine | src/iniparser.cpp:633-694 | the class of a line and the section, key and value it gives |
| IniLoad.LoadTurn | src/iniparser.cpp:749-814 | one turn of the line loop: long lines, continued lines and entries as in the one-pass reading |
| IniFile.CommentIsSkipped | src/iniparser.cpp:650-652 | a line whose first character but blanks is # or ; changes nothing, whatever it says, unless it ends in a backslash |
| IniFile.ContinuedIsJoined | src/iniparser.cpp:773-777 | a line that ends in a backslash goes on in the next one |
| IniFile.LongLineFails | src/iniparser.cpp:749-762 | 1023 characters without a newline make the load fail, whatever follows |
| IniFile.LastLine | src/iniparser.cpp:749-762 | the last line needs no newline; a single character without one is ignored |
| IniFile.NoEqualsIsError | src/iniparser.cpp:691-694 | a line without equals sign that is no comment and does not begin with a bracket is an error |
| IniFile.ErrorsStay | src/iniparser.cpp:814-819 | a file with an error is not loaded |
| IniLine.HeaderLoads | src/iniparser.cpp:653-658 | a header of every name opens the section under its lower-case form |
| IniLine.KeyLoads | src/iniparser.cpp:633-694 | a line of every key and value adds the key in lower case, with what the patterns read |
| IniFile.NamesAreLowered | src/iniparser.cpp:653-672 | a file of one section and one key in whatever case loads to the lower-case names |
| IniLoad.IniparserLoad | src/iniparser.cpp:714-823 | the dictionary holds exactly the store the text stands for; null exactly for a line in error or too long |
| IniDump.IniparserGetnsec | src/iniparser.cpp:164-179 | the number of keys without a colon |
| IniDump.IniparserGetsecname | src/iniparser.cpp:195-217 | the n-th such key in slot order, or null |
| IniDump.IniparserDumpsectionIni | src/iniparser.cpp:297-321 | the header and the lines of the keys that start with the name and a colon, if the section is found |
| IniDump.IniparserDumpIni | src/iniparser.cpp:258-283 | the text of all sections in slot order, or of plain keys when there is none |
| IniFile.DumpOfOne | src/iniparser.cpp:296-320 | the text of a dump of one section and one key, character by character |
| IniRoundTrip.SectionOfIs | src/iniparser.cpp:309-313 | a key lies in a section exactly when the section is what precedes its first colon |
| IniLine.KeyStep | src/iniparser.cpp:633-694 | loading a printed key line adds that key, in the current section, with what the patterns read from its value text, for every value text |
| IniLine.ValueSurvives | src/iniparser.cpp:659-692 | exactly the value texts without outer blanks, remark characters and opening quote are read as they are; a quote that opens nothing survives |
| IniLine.QuotedIsRead | src/iniparser.cpp:659-665 | anything between double quotes is read as it is, remark characters and blanks included |
| IniLine.SingleQuotedIsRead | src/iniparser.cpp:660-665 | so is anything between single quotes |
| IniLine.LineLoadsBack | src/iniparser.cpp:633-694 | a printed key line loads back exactly when its value text is read as it is, does not end in a backslash, and the line does not look like a header |
| IniRoundTrip.SectionLoads | src/iniparser.cpp:297-321 | loading a printed section adds the section and all its keys |
| IniRoundTrip.DumpRenamesKeys | src/iniparser.cpp:267-275 | a store without a section entry comes back with a colon before every key, its values as read, and null as (null) |
| IniRoundTrip.DumpThenLoad | src/iniparser.cpp:258-321 | what the dump of a store of single lines loads to, whatever its values: with a section entry, the entries that have a section with the values as read; without one, the renamed keys |
| IniRoundTrip.RoundTrip | src/iniparser.cpp:258-321 | it comes back as it was exactly when every key has its section, no section has a value, and every other key has one that is read as it is |
| IniRoundTrip.LostKey | src/iniparser.cpp:276-279 | a key whose section has no entry is lost when another section has one |
| IniRoundTrip.RenamedKey | src/iniparser.cpp:267-275 | a key comes back with a leading colon when no section has an entry |
| IniRoundTrip.QuotedRemarkIsCut | src/iniparser.cpp:311-316 | a quoted value with a remark character in it loads whole, is dumped without quotes, and comes back cut off before the remark |
| IniRoundTrip.RemarkIsClean | src/iniparser.cpp:311-316 | such as section s, key k and value a;b |
| MksIni.MksiniSet | src/MakerbaseParseIni.cpp:125-145 | section and key are set in the store; -1 exactly when none is loaded |
| MksIni.SetIsLower | src/MakerbaseParseIni.cpp:125-145 | names that fit the buffer are stored in lower case, the key behind its section and a colon |
| MksIni.SetKeepsSections | src/MakerbaseParseIni.cpp:125-145 | setting keeps "every key has its section" exactly when the stored section name has no colon or its first part is a section |
| MksIni.MksiniUnset | src/MakerbaseParseIni.cpp:147-150 | the key is gone and nothing else; a store that is not loaded is accepted |
| MksIni.MksiniUpdate | src/MakerbaseParseIni.cpp:174-181 | the saved file loads to what a dump keeps of the updated store, whatever values and section entries it has, if its lines stay single lines; a file that does not load is replaced by an empty one |
| MksIni.UpdateIsExact | src/MakerbaseParseIni.cpp:125-145 | a store that a dump keeps is kept after an update too exactly when the new value is read as it is and the stored section name has no colon, or, for a name too long for the buffer, has one behind the name of a section present |

## Left out

- PNG, zlib, TGA and HDR writers: allocation failure, growth of the output buffers, and outputs beyond the sizes of a 32-bit int (`Png.FitsInt` states the bound the PNG writer needs).
- Inflate.ZlibDecode: reads stored and fixed-Huffman blocks only; dynamic-Huffman blocks are never written and are malformed to this reader.
- Png.PngDecode: reads files of IHDR, IDAT and IEND chunks with 8-bit samples, without palette and interlacing; other chunks are never written.
- The non-run-length TGA, BMP and JPEG writers, and the conversion of floating-point pixels to mantissas and exponent.
- Tga.WriteRow: takes a row as a sequence of pixels; the address arithmetic into one data block is not modelled.
- Hdr.WriteHdrScanline: takes the converted pixels; the file header of an HDR image is plain text and not modelled.
- QrSegment.MakeNumeric, MakeAlphanumeric: the int counter of characters running over is not modelled; no version holds that many.
- QR: the Kanji and ECI segment makers and the scaling of the picture in `src/utils.cpp`.
- PngFilter.FilterLine: the estimate of a line of 2^24 bytes or more is modelled as wrapping around, where C leaves signed overflow open; the choice of filter has no influence on what a reader gets.
- QrReader.ReadSegments: reads the modes the segment makers write; other mode indicators are errors.
- QrEncode.ReadSymbol: takes the version, which the size of the grid determines, and reads undamaged symbols; error correction by a reader is not modelled, only that it is possible (`QrEncode.SymbolIsCorrectable`).
- HttpChunked.ReceiveBody: starts where the header section ends; the search for the empty line and the Content-Length branch are not modelled, and size_t has 64 bits.
- HttpGrammar.PlainIffEnds: leaves out contents of 2^64 bytes or more, which no vector holds; a trailer field is a token, a colon and any field bytes, with folded lines below it, so the finer rule on where blanks may stand inside a value is not followed.
- HttpHeaders.ParseHeaderFields: the lower-casing of names and the branches on transfer-encoding and content-length in the same loop are not modelled; nor are URI, status line and request line.
- Dictionary.DictionaryHash: characters count as unsigned, as they do on ARM; the value of the hash has no influence on any result.
- Dictionary: null arguments for dictionary or key, failure of allocation, and the counter running over the range of int.
- IniText.IniparserLine: buffers hold strings and are changed as a whole; terminating zeros, `sscanf` field overflow and non-ASCII locales are not modelled.
- IniDump.IniparserDumpsectionIni: the section name is not checked against the 1025-byte buffer of the code.
- MksIni.MksiniUpdate: does not say what the saved file loads to when a key, value or section name makes its line no single clean line: a newline, more than 1022 characters, upper case, or a backslash at the end.
- MksIni: reading a section into a map (`mksini_getsection`), numeric and boolean getters, file locking and retries; a file is its text.
- User interface, sockets, threads, Wi-Fi and GPIO code, and the header-reading phase of a request.
