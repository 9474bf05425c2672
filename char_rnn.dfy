/** The host-side logic of the char-RNN sample (`SampleCharRNN`): reading the
    requested weights, padding the LSTM biases, slicing the converted buffers
    per gate, and moving data between the host buffers between time steps. */
module CharRnn {
  import opened Results
  import opened Bytes
  import opened WeightFile
  import opened CharMaps
  import opened Arith

  /** `sizeof(float)`: weights and host buffers hold 32-bit floats. */
  const FloatSize: nat := 4

  datatype SampleError =
    | BadDataType            // `getElementSize` throws
    | CharacterNotInVocab    // `charToID.at(c)` throws

  /** The bytes of an ASCII string. */
  function Ascii(s: string): (bs: seq<byte>)
    ensures |bs| == |s|
  {
    seq(|s|, i requires 0 <= i < |s| => (s[i] as int % 0x100) as byte)
  }

  const EmbedName: Name := Ascii("embedding")

  /** `SampleCharRNNWeightNames::names`: the seven tensors the sample needs. */
  const RequestedNames: set<Name> := {
    Ascii("rnn_multi_rnn_cell_cell_0_basic_lstm_cell_kernel"),
    Ascii("rnn_multi_rnn_cell_cell_0_basic_lstm_cell_bias"),
    Ascii("rnn_multi_rnn_cell_cell_1_basic_lstm_cell_kernel"),
    Ascii("rnn_multi_rnn_cell_cell_1_basic_lstm_cell_bias"),
    Ascii("softmax_softmax_w"),
    Ascii("softmax_softmax_b"),
    EmbedName}

  /** The four LSTM gates, `nvinfer1::RNNGateType`. */
  datatype Gate = Input | Cell | Forget | Output

  /** `gateOrder`: TensorFlow's order of the gates in a kernel row. */
  const GateOrder: seq<Gate> := [Input, Cell, Forget, Output]

  /** Where one `setWeightsForGate`/`setBiasForGate` pair finds its data, in
      elements from the start of the converted kernel and bias buffers. The
      same slice is taken from the layer-0 and the layer-1 buffers. */
  datatype GateSlice = GateSlice(
    gate: Gate,
    isW: bool,           // input weights (true) or recurrent weights (false)
    kernelOffset: nat,
    kernelCount: nat,
    biasOffset: nat,
    biasCount: nat)

  /** The slice the loop hands over at iteration `gateIndex`, in closed
      form. A kernel slice is `dataSize` times its bias slice, and the eight
      slices stay inside the converted buffers. */
  function SliceAt(dataSize: nat, hiddenSize: nat, gateIndex: nat): (s: GateSlice)
    ensures s.kernelCount == dataSize * s.biasCount && s.kernelOffset == dataSize * s.biasOffset
    ensures gateIndex < 2 * |GateOrder| ==>
      s.biasOffset + s.biasCount <= 8 * hiddenSize
      && s.kernelOffset + s.kernelCount <= 8 * (dataSize * hiddenSize)
  {
    SliceArith(dataSize, hiddenSize, gateIndex);
    GateSlice(GateOrder[gateIndex % |GateOrder|], gateIndex < |GateOrder|,
              gateIndex * (dataSize * hiddenSize), dataSize * hiddenSize,
              gateIndex * hiddenSize, hiddenSize)
  }

  /** The offset arithmetic behind `SliceAt`'s contract. */
  lemma SliceArith(dataSize: nat, hiddenSize: nat, gateIndex: nat)
    ensures gateIndex * (dataSize * hiddenSize) == dataSize * (gateIndex * hiddenSize)
    ensures gateIndex < 8 ==>
      gateIndex * hiddenSize + hiddenSize <= 8 * hiddenSize
      && gateIndex * (dataSize * hiddenSize) + dataSize * hiddenSize <= 8 * (dataSize * hiddenSize)
  {
    if gateIndex < 8 {
      MulMono(gateIndex + 1, 8, hiddenSize);
      MulMono(gateIndex + 1, 8, dataSize * hiddenSize);
    }
  }

  /** `count` zero bytes. */
  function Zeros(count: nat): (z: seq<byte>)
    ensures |z| == count && forall i :: 0 <= i < count ==> z[i] == 0
  {
    seq(count, _ => 0)
  }

  /** Bytes of row `index` of an embedding table whose rows are `dataSize`
      floats wide. */
  function EmbeddingRowStart(index: nat, dataSize: nat): nat
  {
    index * dataSize * FloatSize
  }

  class SampleCharRNN {
    const hiddenSize: nat
    const dataSize: nat
    /** `mParams.weightNames.names`: the names still to be read. */
    var names: set<Name>
    /** `mWeightMap`. */
    var weightMap: map<Name, Weights>

    constructor(hiddenSize: nat, dataSize: nat)
      ensures this.hiddenSize == hiddenSize && this.dataSize == dataSize
      ensures names == RequestedNames && weightMap == map[]
    {
      this.hiddenSize := hiddenSize;
      this.dataSize := dataSize;
      names := RequestedNames;
      weightMap := map[];
    }

    /** `loadWeights`: read the requested entries of a weight file. Each name
        read is erased from `names`, so what is left there afterwards is
        what the file did not provide. */
    method LoadWeights(file: seq<byte>) returns (r: Result<map<Name, Weights>, LoadError>)
      modifies this`names
      ensures LoadWeightsSpec(file, old(names)).Ok? <==> r.Ok?
      ensures r.Ok? ==> r.value == LoadWeightsSpec(file, old(names)).value.weights
                        && names == LoadWeightsSpec(file, old(names)).value.pending
      ensures r.Err? ==> r.error == LoadWeightsSpec(file, old(names)).error
    {
      var header := ReadCount(file);
      if header.Err? {
        return Err(header.error);
      }
      if header.value.value <= 0 {
        return Err(NonPositiveCount);
      }
      r := ReadEntries(file, HeadersOf(file), header.value.value, header.value.end);
    }

    /** The `while (count--)` loop of `loadWeights`, starting at `pos` with
        an empty map. `parse` reads the header of the entry at a position
        (name, type and shape); it is a parameter so that the loop is
        proved once for any header reader. */
    method ReadEntries(file: seq<byte>, parse: HeaderParser, count: nat, pos: nat)
      returns (r: Result<map<Name, Weights>, LoadError>)
      modifies this`names
      ensures Loop(file, parse, LoadState(pos, old(names), map[]), count).Ok? <==> r.Ok?
      ensures r.Ok? ==> r.value == Loop(file, parse, LoadState(pos, old(names), map[]), count).value.weights
                        && names == Loop(file, parse, LoadState(pos, old(names), map[]), count).value.pending
      ensures r.Err? ==> r.error == Loop(file, parse, LoadState(pos, old(names), map[]), count).error
    {
      ghost var spec := Loop(file, parse, LoadState(pos, names, map[]), count);
      var count, pos := count, pos;
      var loaded: map<Name, Weights> := map[];
      ghost var st := LoadState(pos, names, loaded);
      while count > 0
        invariant st.pos == pos && st.pending == names && st.weights == loaded
        invariant Loop(file, parse, st, count) == spec
        decreases count
      {
        if names == {} {
          break;
        }
        LoopUnfolds(file, parse, st, count);
        var entry := parse(pos);
        if entry.Err? {
          return Err(entry.error);
        }
        var h := entry.value;
        if h.name !in names {
          StepSkips(file, parse, st);
          st := Step(file, parse, st).value;
          // skip the separator, the data and the newline in one seek
          pos := h.shapeEnd + (2 + h.numBytes);
          count := count - 1;
          continue;
        }
        names := names - {h.name};
        pos := h.shapeEnd + 1;  // skip the separator
        if pos + h.numBytes > |file| {
          return Err(Truncated);
        }
        StepStores(file, parse, st);
        st := Step(file, parse, st).value;
        var values := file[pos..pos + h.numBytes];
        pos := pos + h.numBytes;
        pos := pos + 1;  // skip the newline
        loaded := loaded[h.name := Weights(h.dataType, values, h.count)];
        count := count - 1;
      }
      return Ok(loaded);
    }

    /** `mWeightMap = loadWeights(file)` in `build`. */
    method InstallWeights(file: seq<byte>) returns (r: Outcome<LoadError>)
      modifies this`names, this`weightMap
      ensures r.Pass? <==> LoadWeightsSpec(file, old(names)).Ok?
      ensures r.Pass? ==> weightMap == LoadWeightsSpec(file, old(names)).value.weights
                          && names == LoadWeightsSpec(file, old(names)).value.pending
      ensures r.Fail? ==> r.error == LoadWeightsSpec(file, old(names)).error
                          && weightMap == old(weightMap)
    {
      var loaded := LoadWeights(file);
      if loaded.Err? {
        return Fail(loaded.error);
      }
      weightMap := loaded.value;
      return Pass;
    }

    /** `convertRNNBias`: TensorFlow stores one bias per gate, TensorRT one
        for the input and one for the recurrent weights. The first
        `4 * hiddenSize` elements are copied, the second half is zero. */
    method ConvertRNNBias(input: Weights) returns (r: Result<Weights, SampleError>)
      requires ElementSize(input.dataType).Some? ==>
        4 * hiddenSize * ElementSize(input.dataType).value <= |input.values|
        && 4 * hiddenSize <= 2 * input.count
      ensures r.Ok? <==> ElementSize(input.dataType).Some?
      ensures r.Ok? ==>
        var size := ElementSize(input.dataType).value;
        && r.value.dataType == input.dataType
        && r.value.count == 2 * input.count
        && |r.value.values| == 2 * size * input.count
        && (forall i :: 0 <= i < 4 * hiddenSize * size && i < size * input.count ==>
              r.value.values[i] == input.values[i])
        && (forall i :: size * input.count <= i < 2 * size * input.count ==> r.value.values[i] == 0)
      ensures r.Ok? && input.count == 4 * hiddenSize
                    && |input.values| == ElementSize(input.dataType).value * input.count ==>
        r.value.values == input.values + Zeros(|input.values|)
    {
      var elementSize := ElementSize(input.dataType);
      if elementSize.None? {
        return Err(BadDataType);
      }
      var size := elementSize.value;
      var ptr := new byte[size * input.count * 2];
      CopyBytes(ptr, 0, input.values[..4 * hiddenSize * size]);
      FillBytes(ptr, size * input.count, size * input.count * 2, 0);
      r := Ok(Weights(input.dataType, ptr[..], input.count * 2));
      if input.count == 4 * hiddenSize && |input.values| == size * input.count {
        assert r.value.values == input.values + Zeros(|input.values|);
      }
    }

    /** The gate loop of `addRNNv2Layer`: eight iterations, the first four
        for the input weights and the last four for the recurrent ones, each
        taking the next `dataSize * hiddenSize` kernel elements and the next
        `hiddenSize` bias elements. */
    method GateSlices() returns (slices: seq<GateSlice>)
      ensures |slices| == 2 * |GateOrder|
      ensures forall i :: 0 <= i < |slices| ==> slices[i] == SliceAt(dataSize, hiddenSize, i)
    {
      var kernelOffset, biasOffset := 0, 0;
      var numGates := |GateOrder|;
      slices := [];
      var gateIndex := 0;
      while gateIndex < 2 * numGates
        invariant 0 <= gateIndex <= 2 * numGates
        invariant |slices| == gateIndex
        invariant kernelOffset == gateIndex * (dataSize * hiddenSize)
        invariant biasOffset == gateIndex * hiddenSize
        invariant forall i :: 0 <= i < gateIndex ==> slices[i] == SliceAt(dataSize, hiddenSize, i)
      {
        slices := slices + [GateSlice(GateOrder[gateIndex % numGates], gateIndex < numGates,
                                      kernelOffset, dataSize * hiddenSize, biasOffset, hiddenSize)];
        kernelOffset := kernelOffset + dataSize * hiddenSize;
        biasOffset := biasOffset + hiddenSize;
        gateIndex := gateIndex + 1;
      }
    }

    /** `copyEmbeddingToInput`: copy the embedding row of `c` into the input
        buffer; a character outside the vocabulary throws before anything is
        written. */
    method CopyEmbeddingToInput(inputBuffer: array<byte>, c: char) returns (r: Outcome<SampleError>)
      requires EmbedName in weightMap
      requires CharToId(c).Some? ==>
        EmbeddingRowStart(CharToId(c).value, dataSize) + inputBuffer.Length <= |weightMap[EmbedName].values|
      modifies inputBuffer
      ensures r.Pass? <==> CharToId(c).Some?
      ensures r.Fail? ==> inputBuffer[..] == old(inputBuffer[..])
      ensures r.Pass? ==>
        var start := EmbeddingRowStart(CharToId(c).value, dataSize);
        inputBuffer[..] == weightMap[EmbedName].values[start..start + inputBuffer.Length]
    {
      var embed := weightMap[EmbedName];
      var id := CharToId(c);
      if id.None? {
        return Fail(CharacterNotInVocab);
      }
      var start := EmbeddingRowStart(id.value, dataSize);
      CopyBytes(inputBuffer, 0, embed.values[start..start + inputBuffer.Length]);
      return Pass;
    }

    /** `copyRNNOutputsToInputs`: the hidden and cell state produced by one
        step become the state fed to the next. */
    method CopyRNNOutputsToInputs(hiddenIn: array<byte>, hiddenOut: array<byte>,
                                  cellIn: array<byte>, cellOut: array<byte>)
      requires hiddenIn.Length <= hiddenOut.Length && cellIn.Length <= cellOut.Length
      requires hiddenIn != hiddenOut && hiddenIn != cellIn && hiddenIn != cellOut
      requires cellIn != hiddenOut && cellIn != cellOut
      modifies hiddenIn, cellIn
      ensures hiddenIn[..] == old(hiddenOut[..hiddenIn.Length])
      ensures cellIn[..] == old(cellOut[..cellIn.Length])
    {
      CopyBytes(hiddenIn, 0, hiddenOut[..hiddenIn.Length]);
      CopyBytes(cellIn, 0, cellOut[..cellIn.Length]);
    }
  }

  // ---------------------------------------------------------------------
  // Properties of the gate slicing
  // ---------------------------------------------------------------------

  /** The gate-loop index that sets `g` for the input (`isW`) or the
      recurrent weights. */
  function SlotIndex(g: Gate, isW: bool): (i: nat)
    ensures i < 2 * |GateOrder|
  {
    (if isW then 0 else 4) + (match g case Input => 0 case Cell => 1 case Forget => 2 case Output => 3)
  }

  /** Every (gate, isW) pair is handed over by exactly one iteration: by
      `SlotIndex(g, isW)` and by no other. */
  lemma EveryGateSlotOnce(dataSize: nat, hiddenSize: nat, g: Gate, isW: bool)
    ensures SliceAt(dataSize, hiddenSize, SlotIndex(g, isW)).gate == g
    ensures SliceAt(dataSize, hiddenSize, SlotIndex(g, isW)).isW == isW
    ensures forall i :: 0 <= i < 8 && SliceAt(dataSize, hiddenSize, i).gate == g
                        && SliceAt(dataSize, hiddenSize, i).isW == isW
                        ==> i == SlotIndex(g, isW)
  {
  }

  /** `i * w <= j < (i + 1) * w` holds for exactly one `i`. */
  lemma SliceIndexUnique(w: nat, i1: nat, i2: nat, j: nat)
    requires i1 * w <= j < i1 * w + w && i2 * w <= j < i2 * w + w
    ensures i1 == i2
  {
    if i1 < i2 {
      MulMono(i1 + 1, i2, w);
    } else if i2 < i1 {
      MulMono(i2 + 1, i1, w);
    }
  }

  /** Some iteration's slice of width `w` at offset `i * w` holds `j`. */
  lemma SliceIndexExists(w: nat, j: nat, n: nat)
    requires j < n * w
    ensures 0 <= j / w < n && (j / w) * w <= j < (j / w) * w + w
  {
    assert w > 0;
    var q := j / w;
    assert q * w + j % w == j;
    if q >= n {
      MulMono(n, q, w);
    }
  }

  /** Element `j` lies in the slice of width `w` starting at `offset`. */
  predicate Covers(offset: nat, w: nat, j: nat)
  {
    offset <= j < offset + w
  }

  /** The bias slices tile `[0, 8 * hiddenSize)`, the converted bias buffer
      of a `4 * hiddenSize` input, without overlap: every element belongs to
      exactly one slice. */
  lemma BiasSlicesTile(dataSize: nat, hiddenSize: nat, j: nat)
    requires j < 2 * (4 * hiddenSize)
    ensures exists i :: 0 <= i < 8 && Covers(SliceAt(dataSize, hiddenSize, i).biasOffset, hiddenSize, j)
    ensures forall i1, i2 :: 0 <= i1 < 8 && 0 <= i2 < 8
                             && Covers(SliceAt(dataSize, hiddenSize, i1).biasOffset, hiddenSize, j)
                             && Covers(SliceAt(dataSize, hiddenSize, i2).biasOffset, hiddenSize, j)
                             ==> i1 == i2
  {
    SliceIndexExists(hiddenSize, j, 8);
    var i := j / hiddenSize;
    assert Covers(SliceAt(dataSize, hiddenSize, i).biasOffset, hiddenSize, j);
    forall i1, i2 | 0 <= i1 < 8 && 0 <= i2 < 8
                    && Covers(SliceAt(dataSize, hiddenSize, i1).biasOffset, hiddenSize, j)
                    && Covers(SliceAt(dataSize, hiddenSize, i2).biasOffset, hiddenSize, j)
      ensures i1 == i2
    {
      SliceIndexUnique(hiddenSize, i1, i2, j);
    }
  }

  /** Likewise the kernel slices tile `[0, 8 * dataSize * hiddenSize)`. */
  lemma KernelSlicesTile(dataSize: nat, hiddenSize: nat, j: nat)
    requires j < 8 * (dataSize * hiddenSize)
    ensures exists i :: 0 <= i < 8 && Covers(SliceAt(dataSize, hiddenSize, i).kernelOffset, dataSize * hiddenSize, j)
    ensures forall i1, i2 :: 0 <= i1 < 8 && 0 <= i2 < 8
                             && Covers(SliceAt(dataSize, hiddenSize, i1).kernelOffset, dataSize * hiddenSize, j)
                             && Covers(SliceAt(dataSize, hiddenSize, i2).kernelOffset, dataSize * hiddenSize, j)
                             ==> i1 == i2
  {
    var w := dataSize * hiddenSize;
    SliceIndexExists(w, j, 8);
    var i := j / w;
    assert Covers(SliceAt(dataSize, hiddenSize, i).kernelOffset, w, j);
    forall i1, i2 | 0 <= i1 < 8 && 0 <= i2 < 8
                    && Covers(SliceAt(dataSize, hiddenSize, i1).kernelOffset, w, j)
                    && Covers(SliceAt(dataSize, hiddenSize, i2).kernelOffset, w, j)
      ensures i1 == i2
    {
      SliceIndexUnique(w, i1, i2, j);
    }
  }
}
