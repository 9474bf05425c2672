/** The region-of-keypoints TensorRT plugin (`RegionOfKeypointsPlugin` and
    its creator): a parameter record of three ints with a byte serialiser,
    the shape rule, and the `enqueue` gather that cuts a square window
    around every keypoint out of an image. */
module RokPlugin {
  import opened Results
  import opened Bytes
  import opened Arith

  /** `nvinfer1::Dims::MAX_DIMS`. */
  const MaxDims: nat := 8

  type DimArray = s: seq<int32> | |s| == MaxDims witness [0, 0, 0, 0, 0, 0, 0, 0]

  /** `nvinfer1::Dims`: the rank and a fixed array of extents. */
  datatype Dims = Dims(nbDims: int32, d: DimArray)

  /** `nvinfer1::Dims3`. */
  function Dims3(d0: int32, d1: int32, d2: int32): (r: Dims)
    ensures r.nbDims == 3 && r.d[..3] == [d0, d1, d2]
  {
    Dims(3, [d0, d1, d2, 0, 0, 0, 0, 0])
  }

  /** A failed `assert` in the plugin, by what it checked. */
  datatype PluginError =
    | WrongInputCount
    | WrongInputShape
    | WrongOutputIndex
    | LengthMismatch
    | WrongFieldCount
    | WrongFieldType

  /** The plugin's three parameters, in serialisation order. */
  datatype PluginParams = PluginParams(regionShape: int32, imageShape: int32, regionNum: int32)

  /** `getSerializationSize`: three `int`s. */
  const SerializationSize: nat := 3 * IntSize

  // ---------------------------------------------------------------------
  // Serialisation
  // ---------------------------------------------------------------------

  /** The bytes `serialize` writes. */
  function EncodeParams(p: PluginParams): (bs: seq<byte>)
    ensures |bs| == SerializationSize
  {
    EncodeInt32(p.regionShape) + EncodeInt32(p.imageShape) + EncodeInt32(p.regionNum)
  }

  /** What the deserialising constructor recovers; its final assertion
      rejects data of any other length than three `int`s. */
  function DecodeParams(bs: seq<byte>): (r: Result<PluginParams, PluginError>)
    ensures r.Ok? <==> |bs| == SerializationSize
    ensures r.Err? ==> r.error == LengthMismatch
  {
    if |bs| != SerializationSize then Err(LengthMismatch)
    else Ok(PluginParams(DecodeInt32(bs[0..4]), DecodeInt32(bs[4..8]), DecodeInt32(bs[8..12])))
  }

  /** Deserialising what was serialised gives back the same parameters. */
  lemma DecodeEncodeParams(p: PluginParams)
    ensures DecodeParams(EncodeParams(p)) == Ok(p)
  {
    var bs := EncodeParams(p);
    assert bs[0..4] == EncodeInt32(p.regionShape);
    assert bs[4..8] == EncodeInt32(p.imageShape);
    assert bs[8..12] == EncodeInt32(p.regionNum);
    DecodeEncodeInt32(p.regionShape);
    DecodeEncodeInt32(p.imageShape);
    DecodeEncodeInt32(p.regionNum);
  }

  /** And serialising what was deserialised gives back the same bytes. */
  lemma EncodeDecodeParams(bs: seq<byte>)
    requires |bs| == SerializationSize
    ensures EncodeParams(DecodeParams(bs).value) == bs
  {
    EncodeDecodeInt32(bs[0..4]);
    EncodeDecodeInt32(bs[4..8]);
    EncodeDecodeInt32(bs[8..12]);
    assert bs == bs[0..4] + bs[4..8] + bs[8..12];
  }

  /** `writeToBuffer<int>`: store `val` at the cursor and advance it by
      `sizeof(int)`. */
  method WriteToBuffer(buffer: array<byte>, cursor: nat, val: int32) returns (next: nat)
    requires cursor + IntSize <= buffer.Length
    modifies buffer
    ensures next == cursor + IntSize
    ensures buffer[cursor..next] == EncodeInt32(val)
    ensures forall i :: 0 <= i < buffer.Length && !(cursor <= i < next) ==> buffer[i] == old(buffer[i])
  {
    CopyBytes(buffer, cursor, EncodeInt32(val));
    next := cursor + IntSize;
  }

  /** `readFromBuffer<int>`: load the `int` at the cursor and advance it by
      `sizeof(int)`. */
  method ReadFromBuffer(buffer: seq<byte>, cursor: nat) returns (val: int32, next: nat)
    requires cursor + IntSize <= |buffer|
    ensures next == cursor + IntSize
    ensures EncodeInt32(val) == buffer[cursor..next]
  {
    val := DecodeInt32(buffer[cursor..cursor + IntSize]);
    next := cursor + IntSize;
    EncodeDecodeInt32(buffer[cursor..next]);
  }

  // ---------------------------------------------------------------------
  // Shapes
  // ---------------------------------------------------------------------

  /** `getOutputDimensions` when its assertions hold: one `[k, r, r]`
      window per keypoint, `k` read from the coordinate input `[2, k]`. */
  function OutputShape(regionShape: int32, inputs: seq<Dims>): (r: Dims)
    requires |inputs| == 2
    ensures r.nbDims == 3 && r.d[1] == r.d[2] == regionShape
    ensures Volume3(r) == inputs[1].d[1] as int * (regionShape as int * regionShape as int)
  {
    Dims3(inputs[1].d[1], regionShape, regionShape)
  }

  /** `configureWithFormat` when its assertion holds. */
  function Configured(p: PluginParams, inputDims: seq<Dims>): (q: PluginParams)
    requires |inputDims| == 2
  {
    p.(regionNum := inputDims[1].d[0], imageShape := inputDims[1].d[1])
  }

  function Volume3(dims: Dims): int
  {
    dims.d[0] as int * dims.d[1] as int * dims.d[2] as int
  }

  // ---------------------------------------------------------------------
  // The gather performed by enqueue
  // ---------------------------------------------------------------------

  /** One output cell: batch item, keypoint, and position in the window. */
  datatype Cell = Cell(b: int, k: int, rx: int, ry: int)

  /** The cells `enqueue`'s four loops visit. */
  predicate InWindow(p: PluginParams, batchSize: int, c: Cell)
  {
    0 <= c.b < batchSize && 0 <= c.k < p.regionNum as int
    && 0 <= c.rx < p.regionShape as int && 0 <= c.ry < p.regionShape as int
  }

  /** The loops' visiting order: lexicographic on (b, k, rx, ry). */
  predicate Before(c: Cell, d: Cell)
  {
    c.b < d.b
    || (c.b == d.b && (c.k < d.k || (c.k == d.k && (c.rx < d.rx || (c.rx == d.rx && c.ry < d.ry)))))
  }

  /** `idx_reg`: where a cell goes in the `[n, k, r, r]` output. */
  function RegionIndex(p: PluginParams, c: Cell): int
  {
    var r := p.regionShape as int;
    r * r * (c.b * p.regionNum as int + c.k) + r * c.rx + c.ry
  }

  /** Number of output cells the loops write. */
  function RegionCells(p: PluginParams, batchSize: int): nat
  {
    if batchSize <= 0 || p.regionNum <= 0 || p.regionShape <= 0 then 0
    else batchSize * p.regionNum as int * p.regionShape as int * p.regionShape as int
  }

  /** Start of batch item `b`'s coordinates: `k` x-coordinates, then `k`
      y-coordinates. */
  function CoordBase(p: PluginParams, b: int): int
  {
    b * p.regionNum as int * 2
  }

  /** C++ `r / 2`, which truncates towards zero. */
  function Half(r: int32): (h: int)
    ensures r >= 0 ==> 0 <= r as int - 2 * h <= 1
    ensures r < 0 ==> -1 <= r as int - 2 * h <= 0
  {
    if r >= 0 then r as int / 2 else -((-(r as int)) / 2)
  }

  /** `idx_img`, the image element a cell copies, or `None` when the cell
      lies left of or above the image and is zero-padded. The element lies
      in the `s * s` plane of image `b + k`, and inside it when the cell is
      not right of or below the image either. */
  function SourceIndex(p: PluginParams, coords: seq<int32>, c: Cell): (r: Option<int>)
    requires 0 <= c.k < p.regionNum as int
    requires 0 <= CoordBase(p, c.b) && CoordBase(p, c.b) + 2 * p.regionNum as int <= |coords|
    ensures var x := coords[CoordBase(p, c.b) + c.k] as int;
      var y := coords[CoordBase(p, c.b) + p.regionNum as int + c.k] as int;
      var s := p.imageShape as int;
      && (r.None? <==> c.rx < Half(p.regionShape) - x || c.ry < Half(p.regionShape) - y)
      && (r.Some? && s >= 0 ==> PlaneStart(s, c.b + c.k) <= r.value)
      && (r.Some? && x - Half(p.regionShape) + c.rx < s && y - Half(p.regionShape) + c.ry < s ==>
            r.value < PlaneStart(s, c.b + c.k + 1))
  {
    var coX := coords[CoordBase(p, c.b) + c.k] as int - Half(p.regionShape) + c.rx;
    var coY := coords[CoordBase(p, c.b) + p.regionNum as int + c.k] as int - Half(p.regionShape) + c.ry;
    if coX < 0 || coY < 0 then None
    else
      var s := p.imageShape as int;
      PlaneBounds(s, coX, coY);
      Some(s * s * (c.b * 1 + c.k) + s * coX + coY)
  }

  /** The first element of plane `image` of `s * s` elements. */
  function PlaneStart(s: int, image: int): int
  {
    s * s * image
  }

  /** An element `(x, y)` of an `s * s` plane lies at `s * x + y`, which is
      below `s * s` when both coordinates are below `s`. */
  lemma PlaneBounds(s: int, x: int, y: int)
    requires 0 <= x && 0 <= y
    ensures s >= 0 ==> 0 <= s * x + y
    ensures x < s && y < s ==> s * x + y < s * s
  {
    if s >= 0 {
      MulMono(0, x, s);
    }
    if x < s && y < s {
      MulMono(x, s - 1, s);
    }
  }

  /** Every coordinate `enqueue` reads exists, and so does every image
      element it copies; the source checks neither. */
  ghost predicate ReadsInBounds(p: PluginParams, batchSize: int, coords: seq<int32>, imagesLength: int)
  {
    (forall b :: 0 <= b < batchSize && p.regionNum > 0 ==>
       0 <= CoordBase(p, b) && CoordBase(p, b) + 2 * p.regionNum as int <= |coords|)
    && (forall c :: InWindow(p, batchSize, c) && SourceIndex(p, coords, c).Some? ==>
          0 <= SourceIndex(p, coords, c).value < imagesLength)
  }

  /** The value `enqueue` stores in a cell. */
  function CellValue<T>(p: PluginParams, batchSize: int, coords: seq<int32>, images: seq<T>, zero: T, c: Cell): T
    requires ReadsInBounds(p, batchSize, coords, |images|) && InWindow(p, batchSize, c)
  {
    match SourceIndex(p, coords, c)
    case None => zero
    case Some(i) => images[i]
  }

  /** The cell whose value goes to output index `i`: the inverse of
      `RegionIndex`. */
  function Decompose(p: PluginParams, i: int): Cell
    requires p.regionShape > 0 && p.regionNum > 0
  {
    var r, n := p.regionShape as int, p.regionNum as int;
    assert r * r > 0 by {
      MulMono(1, r, r);
    }
    var q, o := i / (r * r), i % (r * r);
    Cell(q / n, q % n, o / r, o % r)
  }

  /** The value `enqueue` leaves at output index `i` (`zero` outside the
      indices it writes, or when its reads are out of bounds). */
  ghost function Expected<T>(p: PluginParams, batchSize: int, coords: seq<int32>, images: seq<T>, zero: T, i: int): T
  {
    if ReadsInBounds(p, batchSize, coords, |images|) && 0 <= i < RegionCells(p, batchSize) then
      DecomposeIndex(p, batchSize, i);
      CellValue(p, batchSize, coords, images, zero, Decompose(p, i))
    else zero
  }

  /** First output index of the window of keypoint `k` of item `b`. */
  function WindowStart(p: PluginParams, b: int, k: int): int
  {
    RegionIndex(p, Cell(b, k, 0, 0))
  }

  /** One past its last; the windows of a non-positive region shape are
      empty. */
  function WindowEnd(p: PluginParams, b: int, k: int): int
  {
    if p.regionShape <= 0 then WindowStart(p, b, k) else RegionIndex(p, Cell(b, k + 1, 0, 0))
  }

  /** The first output index `enqueue` has not written when it reaches
      keypoint `k` of item `b`; every index when it writes nothing. */
  function Frontier(p: PluginParams, batchSize: int, b: int, k: int): int
  {
    if RegionCells(p, batchSize) == 0 then 0 else RegionIndex(p, Cell(b, k, 0, 0))
  }

  /** Within an item, the window of `k` ends where the frontier for
      `k + 1` starts. */
  lemma NextWindowFrontier(p: PluginParams, batchSize: int, b: int, k: int)
    requires 0 <= b < batchSize && 0 <= k < p.regionNum as int
    ensures RegionCells(p, batchSize) == 0 ==> WindowEnd(p, b, k) == WindowStart(p, b, k)
    ensures WindowStart(p, b, k) <= WindowEnd(p, b, k)
    ensures RegionCells(p, batchSize) > 0 ==>
      Frontier(p, batchSize, b, k) == WindowStart(p, b, k) && Frontier(p, batchSize, b, k + 1) == WindowEnd(p, b, k)
  {
    if p.regionShape > 0 {
      var r, n := p.regionShape as int, p.regionNum as int;
      MulMono(1, batchSize, n);
      MulMono(1, batchSize * n, r);
      MulMono(1, batchSize * n * r, r);
      MulMono(1, r, r);
    }
  }

  /** After the last keypoint of item `b` comes item `b + 1`. */
  lemma NextItemFrontier(p: PluginParams, batchSize: int, b: int, k: int)
    requires (p.regionNum > 0 ==> k == p.regionNum as int) && (p.regionNum <= 0 ==> k == 0)
    ensures Frontier(p, batchSize, b, k) == Frontier(p, batchSize, b + 1, 0)
  {
    if RegionCells(p, batchSize) > 0 {
      NextItemIndex(p, b);
    }
  }

  /** After the last item the frontier is `RegionCells`. */
  lemma LastFrontier(p: PluginParams, batchSize: int, b: int)
    requires 0 <= b && b >= batchSize && (batchSize > 0 ==> b == batchSize)
    ensures Frontier(p, batchSize, b, 0) == RegionCells(p, batchSize)
  {
    if RegionCells(p, batchSize) > 0 {
      NextItemIndex(p, batchSize - 1);
    }
  }

  /** Within a window, the end of row `rx` is the start of row `rx + 1`. */
  lemma NextRowIndex(p: PluginParams, b: int, k: int, rx: int)
    ensures RegionIndex(p, Cell(b, k, rx, p.regionShape as int)) == RegionIndex(p, Cell(b, k, rx + 1, 0))
  {
    var r := p.regionShape as int;
    assert r * rx + r == r * (rx + 1);
  }

  /** Facts about writing one cell. */
  lemma WriteCell<T>(p: PluginParams, batchSize: int, coords: seq<int32>, images: seq<T>, zero: T, c: Cell)
    requires ReadsInBounds(p, batchSize, coords, |images|) && InWindow(p, batchSize, c)
    ensures 0 <= RegionIndex(p, c) < RegionCells(p, batchSize)
    ensures Expected(p, batchSize, coords, images, zero, RegionIndex(p, c)) == CellValue(p, batchSize, coords, images, zero, c)
  {
    IndexInRange(p, batchSize, c);
    IndexDecompose(p, batchSize, c);
  }

  // ---------------------------------------------------------------------
  // The plugin
  // ---------------------------------------------------------------------

  class RegionOfKeypointsPlugin {
    var regionShape: int32
    var imageShape: int32
    var regionNum: int32

    /** `RegionOfKeypointsPlugin(int region_shape = 5)`. The source leaves
        the other two fields uninitialised; here they start at 0. */
    constructor (regionShape: int32 := 5)
      ensures Params() == PluginParams(regionShape, 0, 0)
    {
      this.regionShape := regionShape;
      imageShape := 0;
      regionNum := 0;
    }

    /** The three-argument constructor used by `clone`. */
    constructor WithParams(regionShape: int32, imageShape: int32, regionNum: int32)
      ensures Params() == PluginParams(regionShape, imageShape, regionNum)
    {
      this.regionShape := regionShape;
      this.imageShape := imageShape;
      this.regionNum := regionNum;
    }

    function Params(): PluginParams
      reads this
    {
      PluginParams(regionShape, imageShape, regionNum)
    }

    /** `getSerializationSize`: the length of what `serialize` writes. */
    function GetSerializationSize(): (size: nat)
      reads this
      ensures size == |EncodeParams(Params())|
    {
      3 * IntSize
    }

    /** `serialize`: region shape, image shape and region count, one `int`
        each, and its final assertion that exactly
        `getSerializationSize()` bytes were written. */
    method Serialize(buffer: array<byte>)
      requires GetSerializationSize() <= buffer.Length
      modifies buffer
      ensures buffer[..SerializationSize] == EncodeParams(Params())
      ensures buffer[SerializationSize..] == old(buffer[SerializationSize..])
    {
      var d := 0;
      d := WriteToBuffer(buffer, d, regionShape);
      ghost var first := buffer[0..4];
      d := WriteToBuffer(buffer, d, imageShape);
      ghost var second := buffer[4..8];
      assert buffer[0..4] == first;
      d := WriteToBuffer(buffer, d, regionNum);
      assert d == GetSerializationSize();
      assert buffer[0..4] == first && buffer[4..8] == second;
      assert buffer[..SerializationSize]
          == buffer[0..4] + buffer[4..8] + buffer[8..12];
    }

    /** `getOutputDimensions`: two inputs, images `[1, h, w]` and
        coordinates of rank 2, one output `[k, r, r]`. */
    function GetOutputDimensions(index: int, inputs: seq<Dims>): (r: Result<Dims, PluginError>)
      reads this
      ensures r.Ok? <==> |inputs| == 2 && inputs[0].nbDims == 3 && inputs[0].d[0] == 1
                         && inputs[1].nbDims == 2 && index == 0
      ensures r.Ok? ==> r.value.nbDims == 3 && r.value.d[0] == inputs[1].d[1]
                        && r.value.d[1] == regionShape && r.value.d[2] == regionShape
    {
      if |inputs| != 2 then Err(WrongInputCount)
      else if !(inputs[0].nbDims == 3 && inputs[0].d[0] == 1) then Err(WrongInputShape)
      else if inputs[1].nbDims != 2 then Err(WrongInputShape)
      else if index != 0 then Err(WrongOutputIndex)
      else Ok(OutputShape(regionShape, inputs))
    }

    /** `configureWithFormat`: region count and image shape are taken from
        the coordinate input's extents; the region shape stays. */
    method ConfigureWithFormat(inputDims: seq<Dims>) returns (r: Outcome<PluginError>)
      modifies this
      ensures r.Pass? <==> |inputDims| == 2
      ensures r.Pass? ==> Params() == Configured(old(Params()), inputDims)
      ensures r.Fail? ==> Params() == old(Params())
    {
      if |inputDims| != 2 {
        return Fail(WrongInputCount);
      }
      regionNum := inputDims[1].d[0];
      imageShape := inputDims[1].d[1];
      return Pass;
    }

    /** `clone`: a new plugin with the same parameters. */
    method Clone() returns (c: RegionOfKeypointsPlugin)
      ensures fresh(c) && c.Params() == Params()
    {
      c := new RegionOfKeypointsPlugin.WithParams(regionShape, imageShape, regionNum);
    }

    /** `enqueue`: for every batch item and keypoint, copy the
        `r x r` window whose top-left corner is the keypoint minus `r / 2`
        into the output, with zeros where the window leaves the image on
        the left or the top. Element values are only moved. */
    method Enqueue<T>(batchSize: int, images: seq<T>, coords: seq<int32>, regions: array<T>, zero: T)
      returns (status: int)
      requires ReadsInBounds(Params(), batchSize, coords, |images|)
      requires RegionCells(Params(), batchSize) <= regions.Length
      modifies regions
      ensures status == 0
      ensures forall c :: InWindow(Params(), batchSize, c) ==>
        && 0 <= RegionIndex(Params(), c) < regions.Length
        && regions[RegionIndex(Params(), c)] == CellValue(Params(), batchSize, coords, images, zero, c)
      ensures forall i :: RegionCells(Params(), batchSize) <= i < regions.Length ==> regions[i] == old(regions[i])
    {
      var p := Params();
      var n := regionNum as int;
      var b := 0;
      while b < batchSize
        invariant 0 <= b && (batchSize > 0 ==> b <= batchSize)
        invariant forall i :: 0 <= i < Frontier(p, batchSize, b, 0) && i < regions.Length ==>
          regions[i] == Expected(p, batchSize, coords, images, zero, i)
        invariant forall i :: 0 <= i < regions.Length && Frontier(p, batchSize, b, 0) <= i ==> regions[i] == old(regions[i])
      {
        var k := 0;
        while k < n
          invariant 0 <= k && (k <= n || k == 0)
          invariant forall i :: 0 <= i < Frontier(p, batchSize, b, k) && i < regions.Length ==>
            regions[i] == Expected(p, batchSize, coords, images, zero, i)
          invariant forall i :: 0 <= i < regions.Length && Frontier(p, batchSize, b, k) <= i ==> regions[i] == old(regions[i])
        {
          assert CoordBase(p, b) == b * n * 2;
          var coXLeft := coords[b * n * 2 + k] as int - Half(regionShape);
          var coYTop := coords[b * n * 2 + n + k] as int - Half(regionShape);
          CopyWindow(batchSize, images, coords, regions, zero, b, k, coXLeft, coYTop);
          NextWindowFrontier(p, batchSize, b, k);
          k := k + 1;
        }
        NextItemFrontier(p, batchSize, b, k);
        b := b + 1;
      }
      LastFrontier(p, batchSize, b);
      forall c | InWindow(p, batchSize, c)
        ensures 0 <= RegionIndex(p, c) < regions.Length
        ensures regions[RegionIndex(p, c)] == CellValue(p, batchSize, coords, images, zero, c)
      {
        IndexInRange(p, batchSize, c);
        IndexDecompose(p, batchSize, c);
      }
      return 0;
    }

    /** The two inner loops of `enqueue`: the window of keypoint `k` of
        batch item `b`, whose top-left corner in the image is
        (`coXLeft`, `coYTop`). */
    method CopyWindow<T>(batchSize: int, images: seq<T>, coords: seq<int32>, regions: array<T>, zero: T,
                         b: int, k: int, coXLeft: int, coYTop: int)
      requires ReadsInBounds(Params(), batchSize, coords, |images|)
      requires RegionCells(Params(), batchSize) <= regions.Length
      requires 0 <= b < batchSize && 0 <= k < regionNum as int
      requires 0 <= CoordBase(Params(), b) && CoordBase(Params(), b) + 2 * regionNum as int <= |coords|
      requires coXLeft == coords[CoordBase(Params(), b) + k] as int - Half(regionShape)
      requires coYTop == coords[CoordBase(Params(), b) + regionNum as int + k] as int - Half(regionShape)
      modifies regions
      ensures forall i :: 0 <= i < regions.Length ==>
        regions[i] == if WindowStart(Params(), b, k) <= i < WindowEnd(Params(), b, k)
                      then Expected(Params(), batchSize, coords, images, zero, i)
                      else old(regions[i])
    {
      var p := Params();
      var r := regionShape as int;
      var n := regionNum as int;
      var s := imageShape as int;
      ghost var pos := WindowStart(p, b, k);
      var rx := 0;
      while rx < r
        invariant 0 <= rx && (r > 0 ==> rx <= r)
        invariant pos == if r > 0 then RegionIndex(p, Cell(b, k, rx, 0)) else WindowStart(p, b, k)
        invariant forall i :: 0 <= i < regions.Length ==>
          regions[i] == if WindowStart(p, b, k) <= i < pos then Expected(p, batchSize, coords, images, zero, i)
                        else old(regions[i])
      {
        var ry := 0;
        while ry < r
          invariant 0 <= ry <= r
          invariant pos == RegionIndex(p, Cell(b, k, rx, ry))
          invariant forall i :: 0 <= i < regions.Length ==>
            regions[i] == if WindowStart(p, b, k) <= i < pos then Expected(p, batchSize, coords, images, zero, i)
                          else old(regions[i])
        {
          var coX := coXLeft + rx;
          var coY := coYTop + ry;
          var idxReg := r * r * (b * n + k) + r * rx + ry;
          WriteCell(p, batchSize, coords, images, zero, Cell(b, k, rx, ry));
          if coX < 0 || coY < 0 {
            regions[idxReg] := zero;
          } else {
            var idxImg := s * s * (b * 1 + k) + s * coX + coY;
            assert SourceIndex(p, coords, Cell(b, k, rx, ry)) == Some(idxImg);
            regions[idxReg] := images[idxImg];
          }
          pos := pos + 1;
          ry := ry + 1;
        }
        NextRowIndex(p, b, k, rx);
        rx := rx + 1;
      }
      if r > 0 {
        NextWindowIndex(p, b, k);
      }
    }
  }

  /** `RegionOfKeypointsCreator::deserializePlugin` with the deserialising
      constructor: read the three `int`s in serialisation order, then
      assert that exactly the given length was consumed. */
  method DeserializePlugin(data: seq<byte>) returns (r: Result<RegionOfKeypointsPlugin, PluginError>)
    ensures r.Ok? <==> |data| == SerializationSize
    ensures r.Err? ==> r.error == LengthMismatch
    ensures r.Ok? ==> fresh(r.value) && r.value.Params() == DecodeParams(data).value
  {
    if |data| < SerializationSize {
      // the reads would run past the data, and the final assertion fails
      return Err(LengthMismatch);
    }
    var d := 0;
    var regionShape, imageShape, regionNum;
    regionShape, d := ReadFromBuffer(data, d);
    imageShape, d := ReadFromBuffer(data, d);
    regionNum, d := ReadFromBuffer(data, d);
    if d != |data| {
      return Err(LengthMismatch);
    }
    DecodeEncodeInt32(regionShape);
    DecodeEncodeInt32(imageShape);
    DecodeEncodeInt32(regionNum);
    var plugin := new RegionOfKeypointsPlugin.WithParams(regionShape, imageShape, regionNum);
    return Ok(plugin);
  }

  /** `nvinfer1::PluginFieldType`. */
  datatype PluginFieldType = Float16 | Float32 | Float64 | Int8 | Int16 | Int32 | Char | DimsField | Unknown

  /** `nvinfer1::PluginField`, its data as raw bytes. */
  datatype PluginField = PluginField(name: string, data: seq<byte>, fieldType: PluginFieldType, length: int)

  /** `RegionOfKeypointsCreator::createPlugin`: exactly one field, of type
      INT32, whose first `int` is the region shape. */
  method CreatePlugin(fields: seq<PluginField>) returns (r: Result<RegionOfKeypointsPlugin, PluginError>)
    requires |fields| == 1 && fields[0].fieldType == Int32 ==> IntSize <= |fields[0].data|
    ensures r.Ok? <==> |fields| == 1 && fields[0].fieldType == Int32
    ensures r.Err? ==> r.error == (if |fields| != 1 then WrongFieldCount else WrongFieldType)
    ensures r.Ok? ==> fresh(r.value) && EncodeInt32(r.value.regionShape) == fields[0].data[..IntSize]
  {
    if |fields| != 1 {
      return Err(WrongFieldCount);
    }
    if fields[0].fieldType != Int32 {
      return Err(WrongFieldType);
    }
    var regionShape := DecodeInt32(fields[0].data[..IntSize]);
    EncodeDecodeInt32(fields[0].data[..IntSize]);
    var plugin := new RegionOfKeypointsPlugin(regionShape);
    return Ok(plugin);
  }

  // ---------------------------------------------------------------------
  // Properties of the output layout
  // ---------------------------------------------------------------------

  /** `hi * base + lo` orders pairs lexicographically when `lo < base`. */
  lemma LexLess(base: int, h1: int, l1: int, h2: int, l2: int)
    requires 0 <= l1 < base && 0 <= l2 < base
    requires h1 < h2 || (h1 == h2 && l1 < l2)
    ensures h1 * base + l1 < h2 * base + l2
  {
    if h1 < h2 {
      MulMono(h1 + 1, h2, base);
      assert (h1 + 1) * base == h1 * base + base;
    }
  }

  /** `RegionIndex` as window number times window size plus offset. */
  lemma IndexSplit(p: PluginParams, c: Cell)
    ensures var r := p.regionShape as int;
      RegionIndex(p, c) == (c.b * p.regionNum as int + c.k) * (r * r) + (c.rx * r + c.ry)
  {
  }

  /** Earlier cells go to smaller output indices. */
  lemma IndexLess(p: PluginParams, batchSize: int, c: Cell, d: Cell)
    requires InWindow(p, batchSize, c) && InWindow(p, batchSize, d) && Before(c, d)
    ensures RegionIndex(p, c) < RegionIndex(p, d)
  {
    var r, n := p.regionShape as int, p.regionNum as int;
    var qc, qd := c.b * n + c.k, d.b * n + d.k;
    var wc, wd := c.rx * r + c.ry, d.rx * r + d.ry;
    assert 0 <= wc < r * r && 0 <= wd < r * r by {
      LexLess(r, c.rx, c.ry, r, 0);
      LexLess(r, d.rx, d.ry, r, 0);
      MulMono(0, c.rx, r);
      MulMono(0, d.rx, r);
    }
    assert qc < qd || (qc == qd && wc < wd) by {
      if c.b < d.b || (c.b == d.b && c.k < d.k) {
        LexLess(n, c.b, c.k, d.b, d.k);
      } else {
        LexLess(r, c.rx, c.ry, d.rx, d.ry);
      }
    }
    LexLess(r * r, qc, wc, qd, wd);
    IndexSplit(p, c);
    IndexSplit(p, d);
  }

  /** Every visited cell lands inside the `RegionCells` output cells. */
  lemma IndexInRange(p: PluginParams, batchSize: int, c: Cell)
    requires InWindow(p, batchSize, c)
    ensures 0 <= RegionIndex(p, c) < RegionCells(p, batchSize)
  {
    var r, n := p.regionShape as int, p.regionNum as int;
    var q, w := c.b * n + c.k, c.rx * r + c.ry;
    LexLess(r, c.rx, c.ry, r, 0);
    LexLess(n, c.b, c.k, batchSize, 0);
    LexLess(r * r, q, w, batchSize * n, 0);
    IndexSplit(p, c);
    MulMono(0, q, r * r);
    MulMono(0, c.rx, r);
    assert RegionCells(p, batchSize) == batchSize * n * (r * r);
  }

  /** Two different cells never share an output index: each output cell is
      written at most once. */
  lemma IndexInjective(p: PluginParams, batchSize: int, c: Cell, d: Cell)
    requires InWindow(p, batchSize, c) && InWindow(p, batchSize, d)
    requires RegionIndex(p, c) == RegionIndex(p, d)
    ensures c == d
  {
    if Before(c, d) {
      IndexLess(p, batchSize, c, d);
    } else if Before(d, c) {
      IndexLess(p, batchSize, d, c);
    }
  }

  /** `i < m * w` puts `i / w` below `m`. */
  lemma DivBelow(i: int, w: int, m: int)
    requires 0 <= i < m * w && 0 < w
    ensures i / w < m
  {
    var q := i / w;
    assert q * w <= i;
    if m <= q {
      MulMono(m, q, w);
    }
  }

  /** Euclidean division keeps a non-negative dividend non-negative. */
  lemma DivNonNegative(i: int, w: int)
    requires 0 <= i && 0 < w
    ensures 0 <= i / w
  {
    var q := i / w;
    assert i == q * w + i % w && i % w < w;
    if q < 0 {
      MulMono(q, -1, w);
    }
  }

  /** `Decompose` names, for every output index, a visited cell that is
      written there. */
  lemma DecomposeIndex(p: PluginParams, batchSize: int, i: int)
    requires 0 <= i < RegionCells(p, batchSize)
    ensures p.regionShape > 0 && p.regionNum > 0
    ensures InWindow(p, batchSize, Decompose(p, i)) && RegionIndex(p, Decompose(p, i)) == i
  {
    var r, n := p.regionShape as int, p.regionNum as int;
    var w := r * r;
    assert 0 < w by {
      MulMono(1, r, r);
    }
    assert i < (batchSize * n) * w;
    QuotientRemainder(i, w, batchSize * n);
    var q, o := i / w, i % w;
    QuotientRemainder(q, n, batchSize);
    QuotientRemainder(o, r, r);
    IndexSplit(p, Decompose(p, i));
  }

  /** Quotient and remainder of `0 <= i < m * w` by `w`. */
  lemma QuotientRemainder(i: int, w: int, m: int)
    requires 0 <= i < m * w && 0 < w
    ensures 0 <= i / w < m && 0 <= i % w < w && i == (i / w) * w + i % w
  {
    DivNonNegative(i, w);
    DivBelow(i, w, m);
  }

  /** And it recovers the cell from its index. */
  lemma IndexDecompose(p: PluginParams, batchSize: int, c: Cell)
    requires InWindow(p, batchSize, c)
    ensures p.regionShape > 0 && p.regionNum > 0
    ensures Decompose(p, RegionIndex(p, c)) == c
  {
    IndexInRange(p, batchSize, c);
    DecomposeIndex(p, batchSize, RegionIndex(p, c));
    IndexInjective(p, batchSize, c, Decompose(p, RegionIndex(p, c)));
  }

  /** Every output cell is written by some visited cell: with
      `IndexInjective`, each of the `RegionCells` cells exactly once. */
  lemma IndexOnto(p: PluginParams, batchSize: int, i: int)
    requires 0 <= i < RegionCells(p, batchSize)
    ensures exists c :: InWindow(p, batchSize, c) && RegionIndex(p, c) == i
  {
    DecomposeIndex(p, batchSize, i);
  }

  /** The last cell of one window is followed by the first of the next. */
  lemma NextWindowIndex(p: PluginParams, b: int, k: int)
    ensures RegionIndex(p, Cell(b, k, p.regionShape as int, 0)) == RegionIndex(p, Cell(b, k + 1, 0, 0))
  {
    var r, n := p.regionShape as int, p.regionNum as int;
    assert r * r * (b * n + k + 1) == r * r * (b * n + k) + r * r;
  }

  /** The last window of one batch item is followed by the first of the
      next, and after the last item comes `RegionCells`. */
  lemma NextItemIndex(p: PluginParams, b: int)
    ensures RegionIndex(p, Cell(b, p.regionNum as int, 0, 0)) == RegionIndex(p, Cell(b + 1, 0, 0, 0))
    ensures b >= 0 && p.regionNum > 0 && p.regionShape > 0 ==>
      RegionIndex(p, Cell(b + 1, 0, 0, 0)) == RegionCells(p, b + 1)
  {
    var r, n := p.regionShape as int, p.regionNum as int;
    assert b * n + n == (b + 1) * n;
  }

  /** After `configureWithFormat`, `enqueue` fills as many cells per batch
      item as `getOutputDimensions` declares exactly when the coordinate
      input is square: the former counts `d[0]` regions, the latter `d[1]`. */
  lemma ConfiguredCellsMatchOutput(p: PluginParams, inputDims: seq<Dims>)
    requires |inputDims| == 2 && p.regionShape > 0
    requires inputDims[1].d[0] > 0 && inputDims[1].d[1] > 0
    ensures RegionCells(Configured(p, inputDims), 1) == Volume3(OutputShape(p.regionShape, inputDims))
            <==> inputDims[1].d[0] == inputDims[1].d[1]
  {
    var r := p.regionShape as int;
    var n, k := inputDims[1].d[0] as int, inputDims[1].d[1] as int;
    assert RegionCells(Configured(p, inputDims), 1) == n * (r * r);
    assert Volume3(OutputShape(p.regionShape, inputDims)) == k * (r * r);
    if n * (r * r) == k * (r * r) {
      assert r * r > 0;
      if n < k {
        LexLess(r * r, n, 0, k, 0);
      } else if k < n {
        LexLess(r * r, k, 0, n, 0);
      }
    }
  }
}
