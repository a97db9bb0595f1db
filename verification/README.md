# Verified models of the camera, codec and streaming code

This project models the parts of the firmware where data changes form or hands, and proves what they promise.

- **The JPEG codec.** The encoder of the camera component (`jpge.cpp`) and the decompressor of the JPEG component
  (`tjpgd.c`) were written independently. The model follows both: Huffman tables, forward DCT, quantisation,
  run-length and Huffman coding, bit packing and stuffing, marker segments on one side; header parsing, the
  memory pool, the three `JD_FASTDECODE` builds of the bit reader, the MCU loops and the pixel output on the
  other. The main result is that the second undoes the first (`Codec.RoundTrip`), with the exact condition on
  the memory it is given.
- **The camera's frame pool** (`cam_hal.c` and the two tasks of `main.c`), as a state machine of interleaved
  steps, with the contents of the frames, and the marker searches.
- **The WebSocket client and the intercom**: fragmentation, the two-lock protocol, and the reassembly of messages.

Objects that the C and C++ code updates in place are classes with those fields (`JpegEncoder`, `Jdec`, `Handler`,
`Client`, `Transport`) and arrays; algorithms that work in place keep their array. What the tasks of the camera
and of the WebSocket client do concurrently is a relation between states.

| module | subject |
|---|---|
| Bits | bit strings, octets and the arithmetic of powers of two |
| Huffman, HuffmanSearch, StandardTables | canonical codes, decoding one symbol, the lookup table, the tables of ITU-T T.81 K.3 |
| Stuffing, BitBuffer | octets, FF 00 stuffing, the encoder's shift register |
| Entropy, Scan | what a block and a scan are as bits and as bytes, and that they read back |
| Dct, Quantizer, Zigzag | the forward transform against the cosines and its ranges, quantisation, coefficient order |
| Encoder, Headers | `jpeg_encoder` and the bytes of its header |
| Decoder, ReaderRefinement | the bit readers and block decoder, and the builds against each other |
| Prepare, JdPrepare, HeaderRoundTrip | what parsing a header means, the parser, and the encoder's header parsed |
| Codec | encoder and decoder together |
| McuOutput, Tiling | pixels of an MCU in place, and their places in the image |
| MarkerSearch, FramePool | the camera driver |
| WsSend, WsLocks, Intercom | the WebSocket client and the audio session |

## What the code does not do

- `jd_prepare` refuses an image whose width or height is a multiple of 65536, because the frame header keeps only
  sixteen bits; for other large sizes it recovers the size modulo 65536 (`HeaderRoundTrip.HeaderRoundTrip`).
- The 3100-byte work buffer that `jpeg_decoder.c` calls recommended and independent of the image does not hold the
  4:2:0 images this encoder writes by default when `JD_FASTDECODE` is 1, the default build
  (`HeaderRoundTrip.RecommendedPool`).
- A skip in `jd_prepare` is not checked against the image. When a skipped segment ends beyond it, the next request
  computes the bytes left without sign and copies almost 4 GB (`Prepare.SkipBeyondEnd`, for the bytes
  FF D8 FF E1 00 10). `JdPrepare.JdPrepare` shows exactly when: `Prepare.LengthsInside` can be checked on the image
  beforehand and excludes it.
- The clipping table of the default build (`JD_TBLCLIP`) looks at ten bits of the value, so what lies beyond
  -512..511 may come out at the other end (`McuOutput.TableWraps`); samples in [-103, 266] never get there
  (`McuOutput.ConversionInRange`).
- A dequantised product of a stream the encoder did not write can leave 32 bits (`Decoder.ProductWraps`).
- A short raw write of the last fragment leaves FIN on a frame that is not the last (`WsSend.FinMarksLast`).
- An ERROR handler that sends from a sender's context can deadlock with the client task
  (`WsLocks.SendingErrorHandlerDeadlocks`). DISCONNECTED handlers cannot: the connection state has already changed,
  so a send there returns before it takes a lock.
- The intercom drops the last byte of an odd-length message (`Intercom.SessionIsConcatenation`), and a
  continuation frame (opcode 0) is not part of any message it takes.

## Model

| member | source | states |
|---|---|---|
| Codec.RoundTrip | components/espressif__esp_jpeg/tjpgd/tjpgd.c:1116-1392 | an image encoded with any size of 1..65535, subsampling, quality and samples, then given to any decoder build with any input buffer and pool: decoding succeeds exactly when the buffer holds the longest segment and the pool suffices (otherwise a memory error), and the blocks are the quantised transforms of the encoder's samples, in order, times the decoder's tables, every product exact in 32 bits |
| Codec.EncodeImage | components/espressif__esp32-camera/conversions/jpge.cpp:569-677 | the whole output of the encoder is the header of the image, the stuffed bits of its blocks and EOI, and the blocks are the quantised transforms of the samples in MCU order |
| Codec.DecodeImage | components/espressif__esp_jpeg/tjpgd/tjpgd.c:1116-1392 | any build, on any encoded image followed by any bytes, accepts the header and recovers every block if and only if input buffer and pool suffice, and otherwise says which memory is too small |
| Codec.UnitProductsFit | components/espressif__esp_jpeg/tjpgd/tjpgd.c:867-895 | for a block coded from any samples at any quality every dequantised product fits 32 bits |
| Codec.CodedIsCosine | components/espressif__esp32-camera/conversions/jpge.cpp:384-407 | the z-th coefficient coded, times its table entry, is within half an entry and 1 of the cosine sum of the samples at the frequencies of its zigzag position, for any samples and quality |
| Codec.EncodeRows | components/espressif__esp32-camera/conversions/jpge.cpp:480-513 | rows of MCUs coded one after the other append exactly their blocks, components and predictors continuing across rows |
| Codec.McuBuffers | components/espressif__esp_jpeg/tjpgd/tjpgd.c:1292-1308 | the two buffers the header parser allocates have together exactly the size of the memory the pixel output works in |
| Huffman.ComputeHuffmanTable | components/espressif__esp32-camera/conversions/jpge.cpp:151-184 | every listed symbol gets the value and length of its canonical code, every other symbol size 0, and the nested loops end |
| Huffman.FillSizes | components/espressif__esp32-camera/conversions/jpge.cpp:158-166 | the size list holds the canonical lengths in order, with the zero sentinel behind them |
| Huffman.AssignCodes | components/espressif__esp32-camera/conversions/jpge.cpp:168-176 | the nested while loops end and give every list position its canonical code value |
| Huffman.FirstCodeIsKraftSum | components/espressif__esp32-camera/conversions/jpge.cpp:168-176 | the running code value of a length is the Kraft sum of the shorter lengths, in units of that length |
| Huffman.CodesFit | components/espressif__esp32-camera/conversions/jpge.cpp:168-176 | on a table that satisfies Kraft every code fits its length |
| Huffman.CanonicalOrdered | components/espressif__esp32-camera/conversions/jpge.cpp:168-176 | lengths never decrease along the list, and a later code lies beyond every extension of an earlier one |
| Huffman.PrefixFree | components/espressif__esp32-camera/conversions/jpge.cpp:151-184 | no code word is a prefix of another |
| HuffmanSearch.DecodeWord | components/espressif__esp_jpeg/tjpgd/tjpgd.c:425-439 | bits that start with a code word decode to its symbol and length |
| HuffmanSearch.HitIsWord | components/espressif__esp_jpeg/tjpgd/tjpgd.c:425-439 | a decoded symbol is one whose code word the bits start with |
| HuffmanSearch.DecodesIffWord | components/espressif__esp_jpeg/tjpgd/tjpgd.c:425-439 | decoding succeeds exactly on bit strings that start with a code word |
| HuffmanSearch.SearchExtend | components/espressif__esp_jpeg/tjpgd/tjpgd.c:507-519 | a hit depends only on the bits it uses: more bits behind do not change it |
| HuffmanSearch.RebuildCodes | components/espressif__esp_jpeg/tjpgd/tjpgd.c:308-315 | for any counts, the shift-per-length loop with its 16-bit counter builds the canonical values modulo 2^16 |
| HuffmanSearch.CodesAgree | components/espressif__esp_jpeg/tjpgd/tjpgd.c:308-315 | on counts that satisfy Kraft the 16-bit counter loses nothing, so the decoder rebuilds the encoder's code |
| HuffmanSearch.CreateLut | components/espressif__esp_jpeg/tjpgd/tjpgd.c:333-368 | all writes stay in the table for any counts; under Kraft every slot holds the result of the reference search on that slot's 10-bit pattern, and the offset is that of the first long code |
| HuffmanSearch.LutEntryUnpacks | components/espressif__esp_jpeg/tjpgd/tjpgd.c:478-493 | no packed entry equals the 0xFFFF or 0xFF sentinel, and unpacking gives length and symbol back |
| HuffmanSearch.SlotFits | components/espressif__esp_jpeg/tjpgd/tjpgd.c:354-363 | a masked start index leaves room for the whole span, whatever the code value |
| HuffmanSearch.LutComplete | components/espressif__esp_jpeg/tjpgd/tjpgd.c:339-365 | slots beyond the last short code hold the sentinel rightly: no short code matches there |
| StandardTables.StandardComplete | components/espressif__esp32-camera/conversions/jpge.cpp:48-69 | the standard tables are complete codes for the coefficient coder: every DC size 0..11, EOB, ZRL and every run and size it can look up has a code word |
| StandardTables.AcLumSymbols | components/espressif__esp32-camera/conversions/jpge.cpp:50-58 | the luma AC symbols are distinct and hold every symbol the coefficient coder uses |
| StandardTables.AcChromaSymbols | components/espressif__esp32-camera/conversions/jpge.cpp:61-69 | the same for the chroma AC symbols |
| StandardTables.AcLumKraft | components/espressif__esp32-camera/conversions/jpge.cpp:50-50 | the luma AC counts satisfy Kraft and list 162 codes |
| StandardTables.AcChromaKraft | components/espressif__esp32-camera/conversions/jpge.cpp:61-61 | the chroma AC counts satisfy Kraft and list 162 codes |
| Stuffing.PackAppend | components/espressif__esp32-camera/conversions/jpge.cpp:203-216 | packing the pending bits with new ones packs all bits put so far |
| Stuffing.StuffedFF | components/espressif__esp32-camera/conversions/jpge.cpp:208-212 | every FF of the stuffed stream is followed by 00 |
| Stuffing.UnstuffStuff | components/espressif__esp_jpeg/tjpgd/tjpgd.c:459-470 | un-stuffing gives the octets back and stops at the marker that follows |
| BitBuffer.OrIn | components/espressif__esp32-camera/conversions/jpge.cpp:206-206 | or-ing new bits into the 32-bit register keeps the pending bits in place and adds the new ones behind them |
| BitBuffer.ByteOut | components/espressif__esp32-camera/conversions/jpge.cpp:207-215 | bits 16..23 of the register are the first eight pending bits, and the shift left keeps the others in place |
| Encoder.JpegEncoder.PutBits | components/espressif__esp32-camera/conversions/jpge.cpp:203-216 | the bits put grow by exactly the given ones; fewer than eight are pending, and sink plus buffer are the header and the stuffed complete octets |
| Encoder.JpegEncoder.FlushOutputBuffer | components/espressif__esp32-camera/conversions/jpge.cpp:186-193 | the buffered bytes move to the stream, none lost or repeated, and the buffer is empty |
| Encoder.JpegEncoder.EmitByte | components/espressif__esp32-camera/conversions/jpge.cpp:195-201 | one byte more has been output, whether or not the buffer was flushed |
| Scan.FlushKeepsBits | components/espressif__esp32-camera/conversions/jpge.cpp:671-673 | the final put_bits(0x7F, 7) writes every data bit; what it adds and drops is padding ones |
| Encoder.JpegEncoder.FinishImage | components/espressif__esp32-camera/conversions/jpge.cpp:660-677 | the stream is the header, the stuffed bits of every block coded, the padding and EOI |
| Dct.DCT2D | components/espressif__esp32-camera/conversions/jpge.cpp:134-148 | in place, the block becomes rows then columns transformed; every coefficient is less than 1 from its double cosine sum, the DC coefficient is in [-1024, 1016] and every AC coefficient within 1020 |
| Dct.TransformIsCosine | components/espressif__esp32-camera/conversions/jpge.cpp:134-148 | for every block of samples the coefficient of vertical frequency u and horizontal frequency v is less than 1 from the double sum of the samples against the cosines of u and v |
| Dct.QuarterTurnIsCosine | components/espressif__esp32-camera/conversions/jpge.cpp:113-132 | the nine cosine values fall from the square root of 2 to 0 and satisfy the double-angle identity |
| Dct.BasisOrthogonal | components/espressif__esp32-camera/conversions/jpge.cpp:113-132 | the eight basis vectors made from them are orthogonal and of equal length, to within 1 in 10000 |
| Dct.PassesLossless | components/espressif__esp32-camera/conversions/jpge.cpp:116-148 | for every block of samples no 16-bit cast of either pass loses anything and no 32-bit sum, product or rounding term overflows |
| Dct.Dct1DIsLinear | components/espressif__esp32-camera/conversions/jpge.cpp:119-132 | without loss the butterfly network computes eight fixed linear combinations exactly |
| Dct.NoLoss | components/espressif__esp32-camera/conversions/jpge.cpp:116-132 | inputs in a range of width at most 8160 lose nothing in casts, sums and results |
| Dct.TransformedInRange | components/espressif__esp32-camera/conversions/jpge.cpp:134-148 | the transform of any samples stays in the ranges the entropy coder has categories for |
| Quantizer.ComputeQuantTable | components/espressif__esp32-camera/conversions/jpge.cpp:554-566 | entries are the scaled standard ones clamped to 1..255; quality 50 leaves the table as it is and quality 100 makes it all ones |
| Quantizer.ScaledMeans | components/espressif__esp32-camera/conversions/jpge.cpp:554-566 | below quality 50 an entry grows as 50 to the quality, from 50 on it shrinks as 100 less the quality to 50, each up to rounding, and clamped entries lie on the right side |
| Quantizer.QualityMonotone | components/espressif__esp32-camera/conversions/jpge.cpp:554-566 | a higher quality never quantises more coarsely |
| Quantizer.QuantizeNearest | components/espressif__esp32-camera/conversions/jpge.cpp:390-405 | a coefficient is rounded to a nearest multiple of its table entry, and never grows |
| Quantizer.LoadQuantizedCoefficients | components/espressif__esp32-camera/conversions/jpge.cpp:384-407 | the coefficients are the quantised samples in zigzag order, the order of `Zigzag.ZigzagPath` |
| Quantizer.SymbolsInRange | components/espressif__esp32-camera/conversions/jpge.cpp:384-471 | from any samples and any table of 1..255 every AC coefficient needs at most 10 bits and the DC value stays in [-1024, 1016] |
| Scan.DcDifference | components/espressif__esp32-camera/conversions/jpge.cpp:427-442 | then every DC difference needs at most 11 bits |
| Zigzag.ZigzagIsPermutation | components/espressif__esp_jpeg/tjpgd/tjpgd.c:41-46 | the zigzag table visits every raster position exactly once |
| Zigzag.ZigzagPath | components/espressif__esp32-camera/conversions/jpge.cpp:43-43 | from the first position the table goes along the diagonals, up to the right where row plus column is even and down to the left where it is odd, and on at the border where a diagonal ends |
| Zigzag.PathDeterminesOrder | components/espressif__esp_jpeg/tjpgd/tjpgd.c:41-46 | any order that starts there and follows that path is the table |
| Entropy.SignTrick | components/espressif__esp32-camera/conversions/jpge.cpp:430-442 | subtracting one from a negative value and masking gives bits from which the decoder's MSB test restores the value |
| Entropy.BlockRoundTrip | components/espressif__esp32-camera/conversions/jpge.cpp:409-471 | a block with AC values of at most 10 bits and a DC difference of at most 11 reads back from its bits, whatever follows: ZRL runs, the omitted EOB and signs included |
| Entropy.ReadAcBits | components/espressif__esp_jpeg/tjpgd/tjpgd.c:870-898 | the AC loop reads back the coefficients written from any position on, with any run of zeros pending |
| Scan.ScanRoundTrip | components/espressif__esp_jpeg/tjpgd/tjpgd.c:845-898 | a sequence of blocks of several components reads back block by block with its DC predictors |
| Scan.BytesRoundTrip | components/espressif__esp32-camera/conversions/jpge.cpp:409-471 | the bytes the encoder emits for any blocks, up to the marker and whatever follows, decode to the same blocks component by component, and only padding ones are left |
| Encoder.JpegEncoder.CodeRun | components/espressif__esp32-camera/conversions/jpge.cpp:450-454 | one ZRL code per sixteen zeros, and the rest of the run is left |
| Encoder.JpegEncoder.CodeCoefficient | components/espressif__esp32-camera/conversions/jpge.cpp:450-466 | a non-zero coefficient puts its ZRL codes, its run and size code and its value bits |
| Encoder.JpegEncoder.CodeDc | components/espressif__esp32-camera/conversions/jpge.cpp:427-442 | a DC difference puts its size code and its value bits |
| Encoder.JpegEncoder.CodeCoefficientsPassTwo | components/espressif__esp32-camera/conversions/jpge.cpp:409-471 | a block puts exactly its bits, and its DC value becomes the predictor of its component alone |
| Encoder.JpegEncoder.CodeBlock | components/espressif__esp32-camera/conversions/jpge.cpp:473-478 | the samples are transformed in place and quantised, and the block coded is that result |
| Encoder.JpegEncoder.ProcessMcu | components/espressif__esp32-camera/conversions/jpge.cpp:482-512 | an MCU codes its luma blocks and then one block of each chroma component, by sampling |
| Encoder.JpegEncoder.ProcessMcuRow | components/espressif__esp32-camera/conversions/jpge.cpp:480-513 | a row codes its MCUs from left to right and nothing else |
| Decoder.Jdec.InFunc | components/espressif__esp_jpeg/jpeg_decoder.c:171-193 | the callback hands over the next bytes of the image, as many as there are up to the buffer size, and none twice |
| Decoder.Jdec.LoadOctet | components/espressif__esp_jpeg/tjpgd/tjpgd.c:401-424 | the next data octet, a stuffed zero removed; a marker and the end of the input are told apart |
| Decoder.Jdec.ReadBit | components/espressif__esp_jpeg/tjpgd/tjpgd.c:400-429 | under the mask, the first unread data bit and nothing else is taken |
| Decoder.Jdec.FindCode | components/espressif__esp_jpeg/tjpgd/tjpgd.c:431-437 | the search over one length finds exactly the codes of that length |
| Decoder.Jdec.Huffext0 | components/espressif__esp_jpeg/tjpgd/tjpgd.c:391-439 | bit by bit: decodes exactly when the unread data bits start with a code word, and uses just its bits |
| Decoder.Jdec.Bitext0 | components/espressif__esp_jpeg/tjpgd/tjpgd.c:541-579 | bit by bit: the value of the next bits, or the right error |
| Decoder.Jdec.FetchOctet | components/espressif__esp_jpeg/tjpgd/tjpgd.c:449-471 | one more octet for the register: data, or ones once a marker has been met |
| Decoder.Jdec.Prepare | components/espressif__esp_jpeg/tjpgd/tjpgd.c:448-476 | the register is filled to the bits needed and still stands for the data bits, continued by ones after the marker |
| Decoder.Jdec.Huffext1 | components/espressif__esp_jpeg/tjpgd/tjpgd.c:442-519 | with the register: decodes the data bits continued by ones, and uses just the code word's bits |
| Decoder.Jdec.Huffext2 | components/espressif__esp_jpeg/tjpgd/tjpgd.c:478-519 | with the lookup table and the search from the long-code offset: the same result as the search over all codes |
| Decoder.LutHit | components/espressif__esp_jpeg/tjpgd/tjpgd.c:478-499 | a lookup gives the reference result, or says that no code of ten bits or fewer matches; the 8-bit offset still finds the long codes |
| Decoder.Jdec.Bitext1 | components/espressif__esp_jpeg/tjpgd/tjpgd.c:582-616 | with the register: the value of the next bits of the continued data |
| Decoder.Jdec.ReadSigned | components/espressif__esp_jpeg/tjpgd/tjpgd.c:886-894 | a value with its sign restored |
| Decoder.Jdec.LoadDc | components/espressif__esp_jpeg/tjpgd/tjpgd.c:848-866 | the DC value is predictor plus difference, and the 16-bit predictor is that value |
| Decoder.Jdec.LoadAc | components/espressif__esp_jpeg/tjpgd/tjpgd.c:870-898 | the working block holds the dequantised coefficients in raster order, each the 32-bit product divided by 256, and a run past the block is refused |
| Decoder.Jdec.LoadBlock | components/espressif__esp_jpeg/tjpgd/tjpgd.c:845-898 | a block read back is what the reference reader reads, dequantised with 32-bit products, or the error |
| Decoder.DequantizedExactly | components/espressif__esp_jpeg/tjpgd/tjpgd.c:867-895 | when every product of the block fits 32 bits, as for the encoder's blocks, the working block holds the exact products divided by 256 |
| Decoder.ProductWraps | components/espressif__esp_jpeg/tjpgd/tjpgd.c:867-895 | a stream that is not the encoder's can make the product leave 32 bits: the value 32767 with the largest table entry comes out negative |
| Decoder.Jdec.McuLoad | components/espressif__esp_jpeg/tjpgd/tjpgd.c:825-918 | an MCU loads its luma blocks and, in colour, one block of each chroma component |
| Decoder.Jdec.DecodeScan | components/espressif__esp_jpeg/tjpgd/tjpgd.c:1371-1391 | the MCU loops load every block of the image, exactly those the reference reader reads, or stop at the first error |
| ReaderRefinement.PrefetchingRefinesBitSerial | components/espressif__esp_jpeg/tjpgd/tjpgd.c:391-439 | over any sequence of calls: the bit-serial reader completes if and only if the prefetching one does within the data bits, and then the values are the same |
| ReaderRefinement.Serve | components/espressif__esp_jpeg/tjpgd/tjpgd.c:381-618 | any sequence of huffext and bitext calls to any build returns what the run of that build says |
| ReaderRefinement.BuildsAgree | components/espressif__esp_jpeg/tjpgd/tjpgd.c:381-618 | two builds on the same scan that ends at a marker: whatever the bit-serial one can answer, the prefetching one answers alike |
| Encoder.HuffmanTable | components/espressif__esp32-camera/conversions/jpge.cpp:635-638 | the code and size tables agree with the canonical code of the table for all 256 symbols |
| Encoder.StandardHuffman | components/espressif__esp32-camera/conversions/jpge.cpp:627-639 | the four code tables are those of the standard luma and chroma tables |
| Encoder.JpegEncoder.EmitSof | components/espressif__esp32-camera/conversions/jpge.cpp:259-273 | the frame header written is the one the image describes |
| Encoder.JpegEncoder.EmitDht | components/espressif__esp32-camera/conversions/jpge.cpp:276-292 | a Huffman table segment with the right length, class and number, counts and symbols |
| Encoder.JpegEncoder.EmitDqtTable | components/espressif__esp32-camera/conversions/jpge.cpp:246-256 | a quantiser table segment with the 64 entries in zigzag order |
| Encoder.JpegEncoder.EmitSos | components/espressif__esp32-camera/conversions/jpge.cpp:306-322 | the scan header written names each component once, with its tables |
| Encoder.JpegEncoder.EmitHeader | components/espressif__esp32-camera/conversions/jpge.cpp:649-655 | the segments follow each other in order, nothing between them |
| Encoder.JpegEncoder.SetTables | components/espressif__esp32-camera/conversions/jpge.cpp:621-639 | the cached static tables are those of the requested quality whatever was encoded before |
| Encoder.JpegEncoder.JpgOpen | components/espressif__esp32-camera/conversions/jpge.cpp:569-658 | the header of the image is out, the packer is empty, the predictors are zero and the tables are the standard ones |
| Headers.HeaderParts | components/espressif__esp32-camera/conversions/jpge.cpp:649-655 | the segments as written one after the other are the header of the image |
| HeaderRoundTrip.HeaderRoundTrip | components/espressif__esp_jpeg/tjpgd/tjpgd.c:1116-1316 | for every image, input buffer and pool: jd_prepare accepts the encoder's header exactly when both memories suffice and neither side is a multiple of 2^16, and then recovers size, components, sampling, quantisers and codes and stops at the first scan byte; otherwise the error is the exact one |
| HeaderRoundTrip.ZeroWidth | components/espressif__esp_jpeg/tjpgd/tjpgd.c:1266-1271 | an image of width 65536 is refused, whatever the memory |
| HeaderRoundTrip.HeaderStaysInside | components/espressif__esp_jpeg/tjpgd/tjpgd.c:1151-1339 | the encoder's header, whatever follows it, is parsed without reading beyond the image |
| HeaderRoundTrip.RecommendedPool | components/espressif__esp_jpeg/jpeg_decoder.c:39-43 | the 3100-byte pool with a 512-byte input buffer holds every image for the bit-serial build (4:2:0 takes 3096), and for the register build every image except 4:2:0 (it would take 3480) |
| HeaderRoundTrip.TablePool | components/espressif__esp_jpeg/jpeg_decoder.c:39-43 | the 65472-byte pool of the lookup build is always enough |
| HeaderRoundTrip.DequantizerEntries | components/espressif__esp_jpeg/tjpgd/tjpgd.c:256-259 | the dequantiser undoes the zigzag order of the table and applies the scale factor of each position |
| Prepare.IpsfIsProduct | components/espressif__esp_jpeg/tjpgd/tjpgd.c:55-64 | the decoder's scale factors are the products of a row and a column factor, 1 or the square root of 2 times a cosine |
| HeaderRoundTrip.QuantApplied | components/espressif__esp_jpeg/tjpgd/tjpgd.c:231-264 | the quantiser segments leave the image's tables, or run out of pool |
| HeaderRoundTrip.DhtApplied | components/espressif__esp_jpeg/tjpgd/tjpgd.c:273-372 | a Huffman table segment leaves its counts and symbols under its number and class and takes its exact share of the pool |
| HeaderRoundTrip.SofApplied | components/espressif__esp_jpeg/tjpgd/tjpgd.c:1192-1217 | the frame header gives size modulo 2^16, component count, sampling and quantiser numbers back |
| HeaderRoundTrip.SosApplied | components/espressif__esp_jpeg/tjpgd/tjpgd.c:1266-1308 | the scan header is accepted exactly when the size is representable and the buffers fit |
| HeaderRoundTrip.ParseAll | components/espressif__esp_jpeg/tjpgd/tjpgd.c:1151-1256 | a run of table segments is parsed segment by segment, whatever the input buffer held before |
| JdPrepare.JdPrepare | components/espressif__esp_jpeg/tjpgd/tjpgd.c:1116-1339 | on any input: some request copies more than it asks for or from beyond the image if and only if a skipped segment ends beyond the image and no other error stops the parser first; in every other case the outcome is that of the reference parse, and on success the object is ready at the first scan byte with every code table built |
| JdPrepare.NextSegment | components/espressif__esp_jpeg/tjpgd/tjpgd.c:1151-1339 | one turn of the segment loop is one step of the reference parse and of the length check; it overruns exactly when the turn before has skipped beyond the end |
| JdPrepare.InFunc | components/espressif__esp_jpeg/jpeg_decoder.c:171-193 | the request is granted the bytes the unsigned 32-bit arithmetic gives; inside the image these are the next bytes and no more than there are, and an overrun is recorded |
| Prepare.GrantedIs | components/espressif__esp_jpeg/jpeg_decoder.c:171-193 | a position inside the image is granted at most the request and at most what is left; beyond the end the difference wraps to almost 2^32 and the copy overruns |
| Prepare.SkipBeyondEnd | components/espressif__esp_jpeg/jpeg_decoder.c:171-193 | the six bytes FF D8 FF E1 00 10: the skip goes to position 20, and the next request for 4 bytes copies 4294967282 |
| Prepare.IgnoredSegment | components/espressif__esp_jpeg/tjpgd/tjpgd.c:1333-1337 | a comment or application segment anywhere between two segments changes neither the outcome nor the error of the parse, nor the length check |
| Prepare.OtherFrameRefused | components/espressif__esp_jpeg/tjpgd/tjpgd.c:1318-1331 | a progressive, lossless or arithmetically coded frame is refused wherever it comes, and so is an end of image before the scan |
| JdPrepare.SeekSoi | components/espressif__esp_jpeg/tjpgd/tjpgd.c:1142-1149 | the stream is left behind the first FF D8, or its end is reported |
| JdPrepare.ReadMarker | components/espressif__esp_jpeg/tjpgd/tjpgd.c:1152-1181 | marker and length of the next segment, an FF in front of the marker passed over; the request overruns exactly when the position is beyond the end |
| JdPrepare.CreateQtTbl | components/espressif__esp_jpeg/tjpgd/tjpgd.c:231-264 | on any segment content: the tables registered, or the error of the first bad one |
| JdPrepare.LoadQtTable | components/espressif__esp_jpeg/tjpgd/tjpgd.c:256-259 | one table from zigzag to raster order with its scale factors |
| JdPrepare.CreateHuffmanTbl | components/espressif__esp_jpeg/tjpgd/tjpgd.c:273-372 | on any segment content: the tables registered and built, or the error of the first bad one |
| JdPrepare.LoadSof | components/espressif__esp_jpeg/tjpgd/tjpgd.c:1192-1217 | the frame fields as the segment says, or the error for unsupported sampling, components or table numbers |
| JdPrepare.LoadSos | components/espressif__esp_jpeg/tjpgd/tjpgd.c:1266-1308 | the scan is accepted exactly when size, components, tables and buffers are in order |
| JdPrepare.AlignInput | components/espressif__esp_jpeg/tjpgd/tjpgd.c:1310-1314 | reading ahead to the buffer boundary loses no byte: the unread bytes are the whole scan |
| McuOutput.NotYetOverwritten | components/espressif__esp_jpeg/tjpgd/tjpgd.c:956-990 | the RGB bytes of earlier pixels never reach a luma or chroma sample that is still to be read |
| McuOutput.TableClamps | components/espressif__esp_jpeg/tjpgd/tjpgd.c:72-126 | the clipping table clamps exactly the values whose low ten bits fall on their own side, among them all of -512..511 |
| McuOutput.TableWraps | components/espressif__esp_jpeg/tjpgd/tjpgd.c:72-126 | 600 is clamped to 255 by the function and to 0 by the table |
| McuOutput.ConversionInRange | components/espressif__esp_jpeg/tjpgd/tjpgd.c:986-988 | for luma and chroma samples in [-103, 266] no conversion leaves the range of the table |
| McuOutput.TableRangeTight | components/espressif__esp_jpeg/tjpgd/tjpgd.c:986-988 | one more at either end, and a blue value leaves the range |
| McuOutput.ClipsAgree | components/espressif__esp_jpeg/tjpgd/tjpgd.c:959-1067 | for samples in that range, and for every content of the one-byte build, the table and the function give the same pixels at every scale |
| McuOutput.ConvertIsMatrix | components/espressif__esp_jpeg/tjpgd/tjpgd.c:986-988 | with either form of clipping the conversion is the JFIF matrix, to within 1 and a thousandth of the chroma differences, clamped to 0..255; grey stays grey |
| McuOutput.SamplePlaces | components/espressif__esp_jpeg/tjpgd/tjpgd.c:961-985 | a pixel's luma sample is at its place in its block, its Cb sample in the block after the luma ones and its Cr sample in the next, shared by the pixels of a sampling cell |
| McuOutput.PixelColour | components/espressif__esp_jpeg/tjpgd/tjpgd.c:959-990 | every pixel of the MCU has the colour of its samples by that matrix |
| McuOutput.BuildRgb | components/espressif__esp_jpeg/tjpgd/tjpgd.c:959-990 | in place, the buffer holds the conversion of every pixel of the MCU, row by row, with either form of clipping |
| McuOutput.BuildRow | components/espressif__esp_jpeg/tjpgd/tjpgd.c:961-989 | one row: the pointers py and pc are at the pixel's own samples through block changes and chroma steps |
| McuOutput.PointersMean | components/espressif__esp_jpeg/tjpgd/tjpgd.c:961-985 | the pointer arithmetic with its jumps gives the luma and chroma index of the pixel |
| McuOutput.Descale | components/espressif__esp_jpeg/tjpgd/tjpgd.c:1010-1041 | averaging in place gives the average of each square of the original pixels |
| McuOutput.SquareBeyond | components/espressif__esp_jpeg/tjpgd/tjpgd.c:1019-1040 | a square lies at or beyond the pixel it becomes, so the pass never reads what it has written |
| McuOutput.AverageBetween | components/espressif__esp_jpeg/tjpgd/tjpgd.c:1019-1040 | an average lies between the least and the greatest value of its square in every channel, and the average of equal pixels is that pixel |
| McuOutput.SquareCountsOnce | components/espressif__esp_jpeg/tjpgd/tjpgd.c:1019-1040 | the sum that is averaged counts every pixel of the square once and no other pixel |
| McuOutput.FullScale | components/espressif__esp_jpeg/tjpgd/tjpgd.c:1010-1041 | at scale 0 the average is the pixel itself |
| McuOutput.BuildCorners | components/espressif__esp_jpeg/tjpgd/tjpgd.c:1043-1067 | at scale 3 each block gives one pixel from its first sample, with either form of clipping |
| McuOutput.CornersAreAll | components/espressif__esp_jpeg/tjpgd/tjpgd.c:1043-1067 | when every block is flat, as at scale 3, that pixel is the colour of every pixel of the block |
| McuOutput.Squeeze | components/espressif__esp_jpeg/tjpgd/tjpgd.c:1069-1086 | cropping in place keeps exactly the left pixels of each row |
| McuOutput.To565 | components/espressif__esp_jpeg/tjpgd/tjpgd.c:1088-1100 | the format change in place gives the RGB565 word of every pixel |
| McuOutput.Colour565Unpacks | components/espressif__esp_jpeg/tjpgd/tjpgd.c:1094-1097 | the RGB565 word holds the five, six and five high bits of red, green and blue |
| McuOutput.OutputMcu | components/espressif__esp_jpeg/tjpgd/tjpgd.c:927-1104 | for every content, geometry, scale and form of clipping the output function is called unless the rectangle vanishes, with the pure averaged and cropped conversion of the samples |
| McuOutput.DeliveredShows | components/espressif__esp_jpeg/tjpgd/tjpgd.c:927-1104 | every pixel handed to the output function shows the samples at its place: the average of its square of pixels coloured by the matrix, at scale 3 the colour of its block |
| Tiling.IntervalsPartition | components/espressif__esp_jpeg/tjpgd/tjpgd.c:942-953 | along one side the scaled intervals of the MCUs partition the scaled side |
| Tiling.RectanglesPartition | components/espressif__esp_jpeg/tjpgd/tjpgd.c:942-953 | every pixel of the scaled image is in exactly one rectangle, and no rectangle holds anything else |
| Tiling.OutCb | components/espressif__esp_jpeg/jpeg_decoder.c:195-247 | the bitmap of a rectangle goes to its place, each of its pixels written once and nothing else |
| Tiling.PutOut | components/espressif__esp_jpeg/jpeg_decoder.c:214-242 | a pixel is stored in the output format, the same bytes whether the decompressor or the callback converts it |
| Tiling.DecodePixels | components/espressif__esp_jpeg/tjpgd/tjpgd.c:1371-1389 | over the whole image an output buffer of exactly outsize bytes is enough, every output pixel is written exactly once and is the average of its square in the MCU it lies in |
| Tiling.ImageShowsSamples | components/espressif__esp_jpeg/tjpgd/tjpgd.c:1371-1389 | every pixel of the output image shows, in that sense, the samples of the MCU it lies in |
| Tiling.SquareAtPlace | components/espressif__esp_jpeg/tjpgd/tjpgd.c:942-953 | the square an output pixel averages is the one at its own coordinates in the image |
| MarkerSearch.EveryMatchIsCandidate | components/espressif__esp32-camera/driver/cam_hal.c:183-187 | every FF byte of a word is in the candidate mask, whatever borrows do |
| MarkerSearch.FalseCandidate | components/espressif__esp32-camera/driver/cam_hal.c:183-187 | a borrow does add a false candidate |
| MarkerSearch.LowestCandidate | components/espressif__esp32-camera/driver/cam_hal.c:188-196 | ctz finds the lowest candidate, and m & (m - 1) removes just that one |
| MarkerSearch.ScanWord | components/espressif__esp32-camera/driver/cam_hal.c:183-199 | one word gives the first end marker that starts in it, if any |
| MarkerSearch.FindEoiForward | components/espressif__esp32-camera/driver/cam_hal.c:172-205 | the word-at-a-time search returns the least position of FF D9, or -1 when there is none |
| MarkerSearch.FindEoiBackward | components/espressif__esp32-camera/driver/cam_hal.c:207-218 | the backward search returns the greatest position |
| MarkerSearch.VerifyJpegSoi | components/espressif__esp32-camera/driver/cam_hal.c:145-164 | the least position of FF D8 FF, or -1 exactly when there is none |
| MarkerSearch.WindowHoldsFinalMarkers | components/espressif__esp32-camera/driver/cam_hal.c:139-143 | the probe window holds an end marker exactly when its last byte is in the last node |
| MarkerSearch.WindowSearch | components/espressif__esp32-camera/driver/cam_hal.c:739-753 | searching the window finds the first such marker of the frame |
| FramePool.StepKeepsInv | components/espressif__esp32-camera/driver/cam_hal.c:266-435 | every step of cam_task, the interrupt handler, the DMA, the capture task and the send task keeps the invariant on ownership, control and contents |
| FramePool.StepKeepsTrace | components/espressif__esp32-camera/driver/cam_hal.c:266-435 | every step keeps the frames to the bytes the hardware has copied for their captures |
| FramePool.Ownership | components/espressif__esp32-camera/driver/cam_hal.c:266-435 | in every state of every run a frame is available and nowhere else, or unavailable and in exactly one place; no queue holds a frame twice |
| FramePool.FilledOnlyWhenAvailable | components/espressif__esp32-camera/driver/cam_hal.c:235-248 | DMA is started, and a frame filled, only while the frame is available |
| FramePool.HandedFrames | components/espressif__esp32-camera/driver/cam_hal.c:734-772 | a JPEG frame the application holds ends FF D9; without PSRAM mode it starts FF D8 FF and has at most fb_size bytes, with it at most recv_size plus half a buffer; which bytes these are is in `FramePool.FramesHoldCaptures` |
| FramePool.FramesHoldCaptures | components/espressif__esp32-camera/driver/cam_hal.c:279-435 | without PSRAM mode, in every run: a frame being filled holds exactly the bytes copied since its capture began, at first none; a finished frame is one whole capture, and a JPEG frame handed over is that capture up to its last end marker |
| FramePool.LengthIsOfCapture | components/espressif__esp32-camera/driver/cam_hal.c:308-319 | in every run cnt is the number of half buffers since the capture began, and in PSRAM mode a finished JPEG frame has the length of the halves of its own capture |
| FramePool.FrameArrives | components/espressif__esp32-camera/driver/cam_hal.c:266-435 | there is a run in which a capture of two halves is queued, taken, verified and handed to the application |
| FramePool.ResendNeverFails | components/espressif__esp32-camera/driver/cam_hal.c:403-420 | after an old frame has been popped the queue always has room: the FBQ-SND branch is unreachable |
| FramePool.FirstSendNeverFails | components/espressif__esp32-camera/driver/cam_hal.c:403-420 | with a queue as long as the pool a finished frame always finds room, and the branch that pops is never entered |
| FramePool.DmaLength | components/espressif__esp32-camera/driver/cam_hal.c:308-319 | the PSRAM length of cnt half buffers stays within the memory allocated |
| FramePool.CutDelivers | components/espressif__esp32-camera/driver/cam_hal.c:736-765 | cutting a frame behind the marker found keeps its start and makes it end with the marker |
| FramePool.VsyncKeepsFrame | components/espressif__esp32-camera/driver/cam_hal.c:369-421 | finishing a frame moves it from the pool to cam_task alone, with its length and start as they should be |
| FramePool.EofKeepsFrame | components/espressif__esp32-camera/driver/cam_hal.c:296-367 | copying half a buffer touches only the frame being filled and stays in its memory |
| FramePool.VerifiesKeepFrame | components/espressif__esp32-camera/driver/cam_hal.c:736-784 | cam_take hands over a frame only with its end marker and changes no other frame |
| FramePool.PassesKeepFrame | main/main.c:652-684 | the capture task passes a frame on or gives it back, never both |
| FramePool.SenderKeepsFrame | main/main.c:175-223 | the send task gives back exactly the frame it took |
| WsSend.SendWithExactOpcode | components/espressif__esp_websocket_client/esp_websocket_client.c:655-746 | for every message and every behaviour of the transport the loop ends, and the frames sent and the result are those of the specification |
| WsSend.EveryTransport | components/espressif__esp_websocket_client/esp_websocket_client.c:694-737 | for every behaviour of the transport: the first frame has the opcode and every later one is a continuation, each goes on where the accepted bytes end and fits the buffer, FIN is on those that reach the end of the data; what is accepted is a prefix of the data, and when nothing fails all of it, with its length returned |
| WsSend.Fragmentation | components/espressif__esp_websocket_client/esp_websocket_client.c:694-737 | when every raw send writes its whole fragment: payloads concatenate to the data, the first frame has the opcode and the rest are continuations, FIN is on the last alone and only if asked for, and every fragment fits the buffer |
| WsSend.FinMarksLast | components/espressif__esp_websocket_client/esp_websocket_client.c:694-737 | with short writes FIN marks the last frame alone exactly when no fragment holding all the remaining data is written short |
| WsSend.EarlyFin | components/espressif__esp_websocket_client/esp_websocket_client.c:694-737 | a two-byte message of which one byte is written: FIN is on a frame that is not the last |
| WsLocks.IterationInOrder | components/espressif__esp_websocket_client/esp_websocket_client.c:1145-1372 | every iteration of the client task, with any number of reads and handlers that send any number of messages of any number of fragments, aborts only with lock held, sends only with the TX lock held, and ends holding neither |
| WsLocks.SendInOrder | components/espressif__esp_websocket_client/esp_websocket_client.c:655-746 | a message of any number of fragments, any of which may fail, gives back what it takes and never takes lock while it holds the TX lock |
| WsLocks.RawsInOrder | components/espressif__esp_websocket_client/esp_websocket_client.c:694-737 | the fragment loop holds the TX lock from the first fragment to the last |
| WsLocks.RecvInOrder | components/espressif__esp_websocket_client/esp_websocket_client.c:1038-1117 | a receive with its PONG ends with lock held once, on success and on failure |
| WsLocks.ControlInOrder | components/espressif__esp_websocket_client/esp_websocket_client.c:1233-1259 | a PING, PONG or CLOSE returns to lock held once and the TX lock free, whether sent, skipped or timed out |
| WsLocks.LockDiscipline | components/espressif__esp_websocket_client/esp_websocket_client.c:252-292 | in every run with quiet ERROR handlers of senders, any number of fragments and any number of sends of a handler: aborts hold lock, raw sends hold the TX lock, a thread between iterations holds neither, and no sender holds one lock while it waits for the other |
| WsLocks.NoWaitCycle | components/espressif__esp_websocket_client/esp_websocket_client.c:677-745 | then the holder a waiting holder waits for can go on, so no circle of waiting threads of any length exists |
| WsLocks.SendingErrorHandlerDeadlocks | components/espressif__esp_websocket_client/esp_websocket_client.c:705-725 | the proviso is needed: when a sender's ERROR handler sends, a run ends with task and sender waiting for each other |
| Intercom.Client.RecvBinary | components/espressif__esp_websocket_client/esp_websocket_client.c:1038-1072 | however the transport splits a binary message, the session takes it whole or not at all |
| Intercom.Handler.OnBinary | main/audio_intercom.c:138-166 | one piece of a message: copied in place within the buffer, and counted only when the message is complete |
| Intercom.Handler.Store | main/audio_intercom.c:153-166 | the pieces of a message that fits stand behind the session in order, and complete it |
| Intercom.Handler.OnText | main/audio_intercom.c:168-176 | a piece that starts with stop closes an open session and triggers one playback |
| Intercom.Handler.OnDisconnected | main/audio_intercom.c:130-133 | a disconnection empties and closes the session, whatever it held |
| Intercom.NextSession | main/audio_intercom.c:130-143 | messages after stop or a disconnection make a session of themselves alone |
| Intercom.SessionBounded | main/audio_intercom.c:135-166 | in every reachable state the samples take at most MAX_SESSION_BYTES |
| Intercom.SessionHoldsKept | main/audio_intercom.c:138-166 | the buffer of a session is the whole samples of exactly the messages that fit, in order |
| Intercom.SessionIsConcatenation | main/audio_intercom.c:138-166 | it is the concatenation of these messages themselves if and only if each has an even number of bytes |

## Left out

- Loading sample blocks from pixel rows: `ProcessMcuRow` takes the 64 samples of each block; colour conversion, subsampling and edge replication of the encoder are not modelled.
- The inverse DCT (`block_idct`) and the store of its samples: the round trip ends at dequantised coefficients, and the pixel output starts from samples.
- Grayscale output (`JD_FORMAT` 2), which `jpeg_decoder.c` refuses to build; default Huffman tables; restart intervals in the MCU loops, which the encoder never writes.
- Failed stream writes, the 128 KB limit of the memory stream and failed allocations of the line buffers: the encoder's sink is unbounded.
- Static tables shared by several encoder objects: each encoder of the model has its own.
- JdPrepare.InFunc: a copy that overruns is recorded and not carried out, since its effect on memory is not known; the position is not taken modulo 2^32, so an image and its last skip stay below 4 GB.
- HeaderRoundTrip.HeaderRoundTrip: input buffers are of 16 bytes or more (the default is 512), so that the words the parser looks at are inside.
- Decoder.Jdec.McuLoad: the inverse DCT of each block and the filling of absent chroma blocks with 128 are not stated.
- Decoder.Dequantize: a product that leaves 32 bits wraps around in the model; in C it is undefined.
- JdPrepare.JdPrepare: the bytes of the input buffer before the first read are arbitrary, and the pool is counted in bytes; addresses of blocks are not modelled.
- Decoder.Jdec.InFunc: the image is a memory image, as `jpeg_decode_in_cb` has it; other devices are not modelled.
- HuffmanSearch.CreateLut: says nothing about the slots when the counts violate Kraft, because two codes may then claim one slot.
- Tiling.DecodePixels: MCU samples are given; the width of `JRECT` fields (16 bits) is not modelled, as image sides fit it.
- FramePool.HandedFrames: in PSRAM mode the start of a frame is not claimed, because a frame that ends before half a buffer has arrived is not probed and the DMA writes the memory itself.
- Camera: `ll_cam_start`, `ll_cam_stop` and the copy routine are atomic steps that may fail or copy up to `pixels_per_dma` bytes; `cam_give_all`, `cam_deinit` and the camera restart, which reset ownership from outside, are not part of a run; cache maintenance and time stamps are not modelled.
- Decoder.Jdec.DecodeScan: needs a stream without restart intervals; between two MCUs the source also runs the inverse DCT, which is not modelled, and the pixel output, which is in `McuOutput` and `Tiling`.
- Camera: a NULL entry of the frame queue, which `cam_take` guards against, is not a value of the model's queue.
- WsLocks.NoWaitCycle: covers the build with a separate TX lock; stopping and destroying the client and registering handlers are not threads of the model. A timed wait for the TX lock may time out at any moment.
- WsLocks.Iteration: handlers of events for which the client is not connected return before they take a lock, so they are not sends.
- WsSend.SendWithExactOpcode: the lock, the buffer allocation and the abort after an error are in `WsLocks`; the transport never reports more bytes than it was given.
- Intercom: a session buffer that could not be allocated, playback, the copy to internal RAM and the text protocol beyond `stop` are not modelled; a read that fails in the middle of a message leads to a disconnection, which empties the session.
- Sensors, motors, provisioning, HTTP and Firebase code, logging: hardware plumbing or clients of libraries that are not shown; their properties would be easy members.
