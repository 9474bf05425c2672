# Char-RNN weight loading and the region-of-keypoints plugin, in Dafny

This project models two host-side components of the TensorRT 6 samples and
proves what they promise.

**The char-RNN sample** (`SampleCharRNN`, module `CharRnn` with `WeightFile`
and `CharMaps`):

- `loadWeights` reads a weight dump: a decimal entry count, then for every
  entry `name type (d1,d2,...)`, one separator byte, `elementSize(type) *
  d1 * d2 * ...` raw bytes and a newline. It keeps only the entries whose
  names are still in the requested set, erasing each name as it is taken. It
  skips the other entries with one seek and stops as soon as the set is empty.
  - The file is a `seq<byte>`. Each lexical step (`>>` on a string and on an
    integer, `getline` up to `(` and `)`, splitting the shape at commas,
    `stoul`) is a function of the bytes and a cursor.
  - `>>` into an integer and `stoul` both accept an optional `+` or `-`
    before the digits. A negative numeral stored in an unsigned type wraps:
    the data type id (`uint32_t`) modulo 2^32, a dimension (`unsigned long`)
    modulo 2^64. A magnitude that does not fit is an error.
  - `EncodeHeader` writes a header as the format comment at the top of
    `loadWeights` describes it. `HeaderRoundTrip` proves the header parser
    reads it back.
  - `Loop`/`Step` state the loop as a function. The imperative
    `SampleCharRNN.ReadEntries`, which updates the class's `names` set, is
    proved to compute it.
- `convertRNNBias` doubles a bias buffer: the first half is copied and the
  second half is zero.
- The gate loop of `addRNNv2Layer` hands out eight (gate, input-or-recurrent)
  slices at fixed strides.
- `charToID` and `idToChar` are the 65-character vocabulary tables.
- `copyEmbeddingToInput` and `copyRNNOutputsToInputs` move bytes between host
  buffers.

**The region-of-keypoints plugin** (`RegionOfKeypointsPlugin` and its
creator, module `RokPlugin`):

- Three `int` parameters (region shape, image shape, region count), which
  `serialize` writes and the deserialising constructor reads back, through
  cursor helpers.
- The output shape rule, and the update `configureWithFormat` makes.
- `enqueue`, four nested loops. For every batch item and keypoint, they cut an
  `r x r` window out of the image, centred on the keypoint, and zero the cells
  that fall left of or above the image. Pixel values are only moved, so their
  type is a type parameter `T`. The fill value `0.` is a parameter `zero`.

Every `assert` of the source that can fail on the modelled inputs becomes an
error result (`Err`/`Fail`). So does every exception (`std::stoul`,
`getElementSize`, `std::map::at`) and every failed stream extraction. C++
`int` fields are `int32`. Integer division of a negative region shape
truncates towards zero, as in C++ (`Half`). `int`s are serialised in
little-endian two's-complement order, as the x86 and ARM hosts TensorRT runs
on store them.

`configureWithFormat` is modelled as written: it sets the region count from
`d[0]` of the coordinate input, but `getOutputDimensions` sizes the output
with `d[1]`. `ConfiguredCellsMatchOutput` proves the two cell counts agree
exactly when the coordinate input is square.

## Model

| member | source | states |
|---|---|---|
| `Bytes.EncodeInt32` | samples/python/uff_rok/plugin/rokplugin.cpp:19 | an `int` is stored as four bytes whose last byte has its top bit set exactly when the `int` is negative |
| `Bytes.DecodeInt32` | samples/python/uff_rok/plugin/rokplugin.cpp:27 | four bytes read as an `int` give a negative value exactly when the top bit of the last byte is set |
| `Bytes.DecodeEncodeInt32` | samples/python/uff_rok/plugin/rokplugin.cpp:16-30 | reading back the four bytes written for an `int` gives that `int` |
| `Bytes.EncodeDecodeInt32` | samples/python/uff_rok/plugin/rokplugin.cpp:24-30 | any four bytes read as an `int` and written again are the same four bytes |
| `Bytes.CopyBytes` | samples/sampleCharRNN/sampleCharRNN.cpp:409 | the source bytes land at the offset in the destination and every other byte is unchanged |
| `Bytes.FillBytes` | samples/sampleCharRNN/sampleCharRNN.cpp:410 | every byte in the range takes the fill value and every other byte is unchanged |
| `WeightFile.ElementSize` | samples/sampleCharRNN/sampleCharRNN.cpp:330 | the element size is defined exactly for the four data type ids 0..3 and lies in 1..4 |
| `WeightFile.ReadToken` | samples/sampleCharRNN/sampleCharRNN.cpp:316-318 | a name read with `>>` is non-empty, holds no white space and ends inside the file (where it starts and ends is `TokenMaximal`) |
| `WeightFile.TokenMaximal` | samples/sampleCharRNN/sampleCharRNN.cpp:316-318 | the name is the run of bytes from the first non-space byte at the cursor up to the next white space or the end of the file; the read fails only when nothing but white space is left |
| `WeightFile.ReadNumeral` | samples/sampleCharRNN/sampleCharRNN.cpp:317-318 | a number read with `>>` consumes at least one byte, ends inside the file, and is followed by a byte that is not a digit or by the end of the file |
| `WeightFile.NumeralScan` | samples/sampleCharRNN/sampleCharRNN.cpp:317-318 | the numeral is white space, an optional sign and the longest non-empty run of digits after it; it is negative exactly when the sign is `-`, and its magnitude is the decimal value of the digits; no numeral is read only when no digit follows the sign |
| `WeightFile.UnsignedValue` | samples/sampleCharRNN/sampleCharRNN.cpp:317-318 | a numeral fits an unsigned type with `limit` values exactly when its magnitude is below `limit`; the value stored is below `limit` and is the signed numeral or that plus `limit` |
| `WeightFile.SplitFields` | samples/sampleCharRNN/sampleCharRNN.cpp:327-328 | the `getline(..., ',')` pieces contain no comma, and there are none exactly when the shape text is empty |
| `WeightFile.JoinSplitFields` | samples/sampleCharRNN/sampleCharRNN.cpp:327-328 | joining the pieces with commas gives back the shape text, less one trailing comma |
| `WeightFile.SplitJoin` | samples/sampleCharRNN/sampleCharRNN.cpp:327-328 | splitting comma-joined fields gives back the fields, when none holds a comma and the last is not empty |
| `WeightFile.ParseDimension` | samples/sampleCharRNN/sampleCharRNN.cpp:329 | `stoul` succeeds exactly when the field starts with a numeral whose magnitude is below 2^64; the value is that signed numeral, a negative one taken modulo 2^64 |
| `WeightFile.ParseDimensions` | samples/sampleCharRNN/sampleCharRNN.cpp:328-329 | the fields parse exactly when every field parses; then there is one dimension per field, each the `stoul` value of its field |
| `WeightFile.ParseShape` | samples/sampleCharRNN/sampleCharRNN.cpp:326-329 | the shape text parses exactly when each of its comma-separated fields does, and then gives one dimension per field |
| `WeightFile.ReadShapeText` | samples/sampleCharRNN/sampleCharRNN.cpp:323 | a shape read succeeds with the cursor just past a `)` that lies after the start and inside the file |
| `WeightFile.ShapeTextBetweenParens` | samples/sampleCharRNN/sampleCharRNN.cpp:323 | the shape text is what lies between the first `(` at or after the cursor and the next `)`, and holds no `)` |
| `WeightFile.ParseEntryHeader` | samples/sampleCharRNN/sampleCharRNN.cpp:316-330 | a parsed header has a non-empty name; its element count is the product of its dimensions; its byte count is element size times count; its shape ends after the start and inside the file |
| `WeightFile.HeaderEndsAtParen` | samples/sampleCharRNN/sampleCharRNN.cpp:323 | a parsed header ends just past the `)` that closes its shape |
| `WeightFile.DecimalDigits` | samples/sampleCharRNN/sampleCharRNN.cpp:291-293 | a number written in decimal is a non-empty run of digits whose decimal value is the number |
| `WeightFile.ShapeRoundTrip` | samples/sampleCharRNN/sampleCharRNN.cpp:326-329 | dimensions below 2^64 written in decimal and joined with commas parse back to the same dimensions |
| `WeightFile.EncodedHeaderParts` | samples/sampleCharRNN/sampleCharRNN.cpp:291-293 | a written header is the name, the decimal type id and a shape text that holds no `)` and parses back to the dimensions |
| `WeightFile.HeaderTextRoundTrip` | samples/sampleCharRNN/sampleCharRNN.cpp:316-330 | a header laid out as name, type digits and shape text parses to that name, type and dimensions, the product count and byte count, ending just after the header |
| `WeightFile.HeaderRoundTrip` | samples/sampleCharRNN/sampleCharRNN.cpp:316-330 | a header written as the format describes it, anywhere in the file and followed by anything, parses back to exactly its name, data type and dimensions, with count their product and byte count element size times count |
| `WeightFile.SignedNumerals` | samples/sampleCharRNN/sampleCharRNN.cpp:303-329 | signs are read as `>>` and `stoul` read them: a count `+2` is 2, `-2` is -2, and the shape `(-1)` has the dimension 2^64 - 1 |
| `WeightFile.EntryData` | samples/sampleCharRNN/sampleCharRNN.cpp:344-346 | the stored bytes are exactly `numOfBytes` bytes starting one byte after the `)` |
| `WeightFile.Step` | samples/sampleCharRNN/sampleCharRNN.cpp:313-350 | a successful iteration leaves the cursor `2 + numOfBytes` past the `)`; the pending set only shrinks, and every name it loses becomes a key of the map |
| `WeightFile.ReadCount` | samples/sampleCharRNN/sampleCharRNN.cpp:302-303 | `input >> count` succeeds exactly when the file starts with a numeral whose signed value fits an `int32_t`; the count is that signed value and the cursor ends after its digits |
| `WeightFile.EmptyShapeIsScalar` | samples/sampleCharRNN/sampleCharRNN.cpp:326-329 | the shape `()` has no dimensions and one element |
| `WeightFile.DigitsParse` | samples/sampleCharRNN/sampleCharRNN.cpp:329 | a field of decimal digits parses to its decimal value |
| `WeightFile.TrailingCommaSplit` | samples/sampleCharRNN/sampleCharRNN.cpp:328 | a trailing comma adds no field |
| `WeightFile.TrailingCommaShape` | samples/sampleCharRNN/sampleCharRNN.cpp:323-329 | the shape `(d,)` has the single dimension `d` |
| `WeightFile.SkipAndReadAdvanceAlike` | samples/sampleCharRNN/sampleCharRNN.cpp:335-347 | skipping an entry and reading it leave the cursor at the same position |
| `WeightFile.StepTakes` | samples/sampleCharRNN/sampleCharRNN.cpp:333-350 | a requested entry is erased from the pending set and stored with exactly its `numOfBytes` data bytes; any other entry changes neither the set nor the map |
| `WeightFile.StepSkips` | samples/sampleCharRNN/sampleCharRNN.cpp:333-337 | an entry that is not requested only moves the cursor, by `2 + numOfBytes` past the `)` |
| `WeightFile.StepStores` | samples/sampleCharRNN/sampleCharRNN.cpp:340-350 | a requested entry whose data is present erases its name, stores its bytes and leaves the cursor after the newline |
| `WeightFile.LoopUnfolds` | samples/sampleCharRNN/sampleCharRNN.cpp:306-311 | while entries remain and names are pending, the loop takes one step and continues with one entry fewer |
| `WeightFile.LoopPartitionsNames` | samples/sampleCharRNN/sampleCharRNN.cpp:306-351 | every name ends up either taken or pending, never both; the pending set only shrinks; a stored value is never replaced |
| `WeightFile.LoopVisitsAtMostCount` | samples/sampleCharRNN/sampleCharRNN.cpp:302-311 | the loop parses at most `count` entries |
| `WeightFile.LoopTakesAtMostCount` | samples/sampleCharRNN/sampleCharRNN.cpp:302-311 | a successful loop takes at most `count` names |
| `WeightFile.StopsWhenAllFound` | samples/sampleCharRNN/sampleCharRNN.cpp:306-311 | once the last pending name is taken, the loop stops without parsing anything more |
| `WeightFile.FirstOccurrenceWins` | samples/sampleCharRNN/sampleCharRNN.cpp:333-350 | a requested name is stored with the data of the first entry of that name |
| `WeightFile.UnseenNameStaysPending` | samples/sampleCharRNN/sampleCharRNN.cpp:333-341 | a requested name that no parsed entry carries stays pending and is absent from the map |
| `WeightFile.Loop` | samples/sampleCharRNN/sampleCharRNN.cpp:306-351 | a successful loop only shrinks the pending set, and every name it loses becomes a key of the map |
| `WeightFile.LoadWeightsSpec` | samples/sampleCharRNN/sampleCharRNN.cpp:295-356 | the read fails with a malformed count when no `int32_t` count can be read and with a non-positive count when it is not positive; it succeeds exactly when the count is positive and the loop succeeds; then the pending names are among those requested and, with the map's keys, make up exactly the requested set |
| `WeightFile.LoadWeightsKeys` | samples/sampleCharRNN/sampleCharRNN.cpp:295-356 | every key of the result is a requested name; requested names split into taken and left over; at most `count` are taken |
| `CharMaps.CharToId` | samples/sampleCharRNN/sampleCharRNN.cpp:127 | a character of the vocabulary has an index below 65, the vocabulary size |
| `CharMaps.VocabularySize` | samples/sampleCharRNN/sampleCharRNN.cpp:130-134 | `idToChar` has 65 entries, the vocabulary size |
| `CharMaps.IdToCharToId` | samples/sampleCharRNN/sampleCharRNN.cpp:127-134 | for every index below 65, `charToID[idToChar[i]] == i` |
| `CharMaps.CharToIdToChar` | samples/sampleCharRNN/sampleCharRNN.cpp:127-134 | for every character in `charToID`, `idToChar[charToID[c]] == c` |
| `CharRnn.SampleCharRNN.constructor` | samples/sampleCharRNN/sampleCharRNN.cpp:109-110 | a new sample requests the seven tensor names and holds no weights |
| `CharRnn.SampleCharRNN.LoadWeights` | samples/sampleCharRNN/sampleCharRNN.cpp:295-356 | the result and the names left over are those of `LoadWeightsSpec`; a failure is the first failure of the read |
| `CharRnn.SampleCharRNN.ReadEntries` | samples/sampleCharRNN/sampleCharRNN.cpp:306-351 | the imperative loop computes `Loop`: the same map, the same names left over, the same error |
| `CharRnn.SampleCharRNN.InstallWeights` | samples/sampleCharRNN/sampleCharRNN.cpp:265 | it succeeds exactly when the reader does; then `mWeightMap` becomes the map the reader returns and the requested names become those left pending; on failure the error is the reader's and `mWeightMap` is unchanged |
| `CharRnn.SampleCharRNN.ConvertRNNBias` | samples/sampleCharRNN/sampleCharRNN.cpp:404-412 | same type and twice the count; the first `4 * hiddenSize` elements are copied; the second half is zero; for a `4 * hiddenSize` input the result is the input followed by as many zero bytes |
| `CharRnn.SampleCharRNN.GateSlices` | samples/sampleCharRNN/sampleCharRNN.cpp:470-488 | eight slices; slice `i` is gate `gateOrder[i % 4]`, input weights iff `i < 4`, kernel offset `i * dataSize * hiddenSize`, bias offset `i * hiddenSize` |
| `CharRnn.SliceAt` | samples/sampleCharRNN/sampleCharRNN.cpp:470-487 | a kernel slice's offset and length are `dataSize` times its bias slice's, and each of the eight slices ends within the `8 * hiddenSize` bias and `8 * dataSize * hiddenSize` kernel elements of the converted buffers |
| `CharRnn.SampleCharRNN.CopyEmbeddingToInput` | samples/sampleCharRNN/sampleCharRNN.cpp:641-648 | the input buffer receives the embedding row of `c`; a character outside the vocabulary fails and writes nothing |
| `CharRnn.SampleCharRNN.CopyRNNOutputsToInputs` | samples/sampleCharRNN/sampleCharRNN.cpp:673-686 | the hidden and cell inputs become copies of the hidden and cell outputs |
| `CharRnn.SlotIndex` | samples/sampleCharRNN/sampleCharRNN.cpp:480-483 | the loop index that sets a (gate, isW) pair is one of the eight iterations |
| `CharRnn.EveryGateSlotOnce` | samples/sampleCharRNN/sampleCharRNN.cpp:461-488 | every (gate, isW) pair is set by exactly one iteration |
| `CharRnn.BiasSlicesTile` | samples/sampleCharRNN/sampleCharRNN.cpp:475-487 | the bias slices tile `[0, 8 * hiddenSize)`: each element lies in exactly one slice |
| `CharRnn.KernelSlicesTile` | samples/sampleCharRNN/sampleCharRNN.cpp:474-486 | the kernel slices tile `[0, 8 * dataSize * hiddenSize)`: each element lies in exactly one slice |
| `RokPlugin.EncodeParams` | samples/python/uff_rok/plugin/rokplugin.cpp:154-164 | the serialised form is `getSerializationSize()` = 12 bytes |
| `RokPlugin.DecodeParams` | samples/python/uff_rok/plugin/rokplugin.cpp:50-61 | deserialisation succeeds exactly on 12 bytes; any other length fails the final assertion |
| `RokPlugin.DecodeEncodeParams` | samples/python/uff_rok/plugin/rokplugin.cpp:56-58 | deserialising what was serialised gives back region shape, image shape and region count |
| `RokPlugin.EncodeDecodeParams` | samples/python/uff_rok/plugin/rokplugin.cpp:159-161 | serialising what was deserialised gives back the same 12 bytes |
| `RokPlugin.WriteToBuffer` | samples/python/uff_rok/plugin/rokplugin.cpp:16-21 | the value's bytes land at the cursor, the cursor advances by `sizeof(int)`, and nothing else changes |
| `RokPlugin.ReadFromBuffer` | samples/python/uff_rok/plugin/rokplugin.cpp:24-30 | the value read is the one whose bytes are at the cursor, and the cursor advances by `sizeof(int)` |
| `RokPlugin.RegionOfKeypointsPlugin.constructor` | samples/python/uff_rok/plugin/rokplugin.cpp:36-39 | the one-argument constructor sets the region shape, 5 when it is omitted |
| `RokPlugin.RegionOfKeypointsPlugin.WithParams` | samples/python/uff_rok/plugin/rokplugin.cpp:42-47 | the three-argument constructor sets all three parameters |
| `RokPlugin.RegionOfKeypointsPlugin.GetSerializationSize` | samples/python/uff_rok/plugin/rokplugin.cpp:147-151 | the size is the length of the serialised parameters |
| `RokPlugin.RegionOfKeypointsPlugin.Serialize` | samples/python/uff_rok/plugin/rokplugin.cpp:154-164 | the buffer starts with the serialised parameters in the order region shape, image shape, region count; the rest is untouched |
| `RokPlugin.OutputShape` | samples/python/uff_rok/plugin/rokplugin.cpp:91 | the output has three dimensions, the last two the region shape, and its volume is `inputs[1].d[1] * r * r` |
| `RokPlugin.RegionOfKeypointsPlugin.GetOutputDimensions` | samples/python/uff_rok/plugin/rokplugin.cpp:70-92 | succeeds iff there are two inputs, input 0 is `[1, h, w]`, input 1 has rank 2 and the index is 0; the output is `(inputs[1].d[1], r, r)` |
| `RokPlugin.RegionOfKeypointsPlugin.ConfigureWithFormat` | samples/python/uff_rok/plugin/rokplugin.cpp:167-188 | with two inputs, the region count becomes `inputDims[1].d[0]` and the image shape `inputDims[1].d[1]`; the region shape stays |
| `RokPlugin.RegionOfKeypointsPlugin.Clone` | samples/python/uff_rok/plugin/rokplugin.cpp:226-233 | the clone is a new plugin with the same three parameters |
| `RokPlugin.RegionOfKeypointsPlugin.Enqueue` | samples/python/uff_rok/plugin/rokplugin.cpp:112-144 | returns 0; every visited cell's output index `r*r*(b*n+k) + r*rx + ry` holds the image element at `s*s*(b+k) + s*coX + coY`, or zero when `coX < 0` or `coY < 0`; the output beyond the written cells is untouched |
| `RokPlugin.RegionOfKeypointsPlugin.CopyWindow` | samples/python/uff_rok/plugin/rokplugin.cpp:122-141 | one keypoint's window fills exactly its `r*r` consecutive output cells with their values and leaves every other output cell alone |
| `RokPlugin.Half` | samples/python/uff_rok/plugin/rokplugin.cpp:123-124 | `region_shape/2` truncates towards zero: twice the result is within one of the shape and never further from zero |
| `RokPlugin.SourceIndex` | samples/python/uff_rok/plugin/rokplugin.cpp:123-137 | a cell reads no image element exactly when its column `coX` or its row `coY` is negative; otherwise it reads from the `s * s` plane of image `b + k` (at or past its start when `s >= 0`, and before its end when `coX, coY < s`) |
| `RokPlugin.DeserializePlugin` | samples/python/uff_rok/plugin/rokplugin.cpp:289-292 | a new plugin whose parameters are the decoded ones; exactly 12 bytes are accepted |
| `RokPlugin.CreatePlugin` | samples/python/uff_rok/plugin/rokplugin.cpp:277-287 | succeeds iff there is exactly one field and it is INT32; the region shape is that field's first `int` |
| `RokPlugin.WriteCell` | samples/python/uff_rok/plugin/rokplugin.cpp:126-138 | a visited cell's output index lies in the output, and the value `enqueue` leaves there is that cell's |
| `RokPlugin.IndexLess` | samples/python/uff_rok/plugin/rokplugin.cpp:119-131 | the loops write strictly increasing output indices |
| `RokPlugin.IndexInRange` | samples/python/uff_rok/plugin/rokplugin.cpp:119-131 | every visited cell's output index lies in `[0, batchSize * n * r * r)` |
| `RokPlugin.IndexInjective` | samples/python/uff_rok/plugin/rokplugin.cpp:130-131 | two visited cells never share an output index, so each is written at most once |
| `RokPlugin.IndexOnto` | samples/python/uff_rok/plugin/rokplugin.cpp:119-131 | every output index below `batchSize * n * r * r` is written by some visited cell |
| `RokPlugin.IndexDecompose` | samples/python/uff_rok/plugin/rokplugin.cpp:130-131 | a visited cell is recovered from its output index |
| `RokPlugin.ConfiguredCellsMatchOutput` | samples/python/uff_rok/plugin/rokplugin.cpp:186-187 | after configuration, the cells `enqueue` writes per item equal the volume `getOutputDimensions` declares iff the coordinate input's two extents are equal |

## Left out

- `build` beyond its `loadWeights` call, `constructNetwork`, the `network->add*` and `rnn->set*` calls, `stepOnce`, `BufferManager`, `teardown` and `infer`: calls into the TensorRT runtime and the GPU driver, logging and random input.
- The weight transposes `convertRNNWeights` and the fully-connected transpose: they call `utils::reshapeWeights` and `utils::transposeSubBuffers`, which are not part of this model.
- `samplesCommon::getElementSize` is not part of this model. `ElementSize` takes the TensorRT table: `kFLOAT` 4 bytes, `kHALF` 2, `kINT8` 1, `kINT32` 4, and any other id is an error.
- `samples/sampleDynamicReshape/sampleDynamicReshape.cpp` and `samples/sampleNMT/model/slpEmbedder.cpp`: engine building, file I/O and floating-point post-processing.
- Plugin plumbing: name, version and namespace strings, `getNbOutputs`, `initialize`, `terminate`, `getWorkspaceSize`, `supportsFormat`, `destroy`, `getFieldNames` and the registration macro. They return constants or hand strings to the runtime.
- Floating point: weights, pixels and the `pow` calls of `enqueue`. Elements are an opaque type, and the squares are integer squares.
- File and stream I/O. The weight file is given as its bytes.
- `ReadEntries`: a failed extraction or a `read` past the end of the file is an error result. The source goes on with a failed stream instead, and the map it returns then depends on what the failed reads left behind.
- Integer overflow: the element count (`wt.count *= stoul(...)`), the byte count and `enqueue`'s index arithmetic are unbounded integers. The source's 64-bit and 32-bit wrap-around is not modelled.
- `CharRnn.SampleCharRNN.LoadWeights` and `CharRnn.SampleCharRNN.InstallWeights`: after a failed load, the requested names are left unspecified. In the source that path is a failed `assert` or an exception from `stoul`, and the sample does not go on.
- `RokPlugin.RegionOfKeypointsPlugin.constructor`: the source leaves image shape and region count uninitialised; the model sets them to 0.
- `WeightFile.ReadCount`: a count whose magnitude does not fit an `int32_t` is an error. `>>` stores the nearest limit and sets the stream's fail bit instead, after which every read of the source fails.
- `RokPlugin.DeserializePlugin`: the source reads 12 bytes whatever the length and only then asserts it. A shorter buffer is an over-read there; the model fails without reading.
- `RokPlugin.CreatePlugin`: the source dereferences the field's data without knowing its length. The model requires at least four bytes there.
- `RokPlugin.RegionOfKeypointsPlugin.Enqueue`: the images, coordinates and output are separate buffers (the inputs are read-only sequences). Every coordinate and image element read must exist (`ReadsInBounds`), and the output must hold every cell written (`RegionCells(Params(), batchSize) <= regions.Length`). The source checks none of these.
- `CharRnn.SampleCharRNN.ConvertRNNBias`: the model requires the `4 * hiddenSize` elements copied to exist in the input and to fit in the doubled buffer. The source copies them unchecked.
- `CharRnn.SampleCharRNN.CopyEmbeddingToInput`: the model requires the embedding row to lie within the embedding tensor. The source copies without checking.
- Byte order: `int`s are stored little-endian.
