/** What the passes of generation.cpp do to the sink, given that `SetPixel`
    writes every vector to the first 12 bytes of the buffer. */
module PassLaws {
  import opened Vectors
  import opened Pixels
  import opened Traversal
  import opened Generation

  /** A pass over an empty grid leaves the sink as it was. */
  lemma PassEmptyGrid(env: Env, m: OutputMethod, d: Direction, src: ImageSource, pitch: U32, bytes: seq<uint8>)
    requires PassSafe(m, src, pitch, |bytes|)
    requires src.rowCount == 0 || src.columnCount == 0
    ensures Pass(env, m, d, src, pitch, bytes) == bytes
  {
    VisitsLength(src.rowCount, src.columnCount);
    assert src.rowCount * src.columnCount == 0;
    assert Visits(src.rowCount, src.columnCount) == [];
  }

  /** The last pixel a pass over a non-empty grid visits. */
  function LastCell(src: ImageSource): Cell
    requires src.rowCount > 0 && src.columnCount > 0
  {
    Cell(src.rowCount - 1, src.columnCount - 1)
  }

  /** The cells a pass over a non-empty grid visits before its last one. */
  function Prefix(src: ImageSource): seq<Cell>
    requires src.rowCount > 0 && src.columnCount > 0
  {
    VisitsLast(src.rowCount, src.columnCount);
    var cells := Visits(src.rowCount, src.columnCount);
    cells[..|cells| - 1]
  }

  /** Every iteration before the last stays inside the buffers. */
  lemma PrefixReadable(m: OutputMethod, src: ImageSource, pitch: U32, len: nat)
    requires PassSafe(m, src, pitch, len)
    requires src.rowCount > 0 && src.columnCount > 0
    ensures AllReadable(m, src, pitch, len, Prefix(src))
  {
    VisitsInGrid(src.rowCount, src.columnCount);
    var cells := Visits(src.rowCount, src.columnCount);
    VisitsLast(src.rowCount, src.columnCount);
    forall k | 0 <= k < |Prefix(src)|
      ensures CellReadable(m, src, pitch, len, Prefix(src)[k])
    {
      assert Prefix(src)[k] == cells[k];
    }
  }

  /** The sink's bytes just before the last iteration of a pass: only
      bytes [0, 12) may have changed. */
  function Before(env: Env, m: OutputMethod, d: Direction, src: ImageSource, pitch: U32, bytes: seq<uint8>): (r: seq<uint8>)
    requires PassSafe(m, src, pitch, |bytes|)
    requires src.rowCount > 0 && src.columnCount > 0
    ensures SinkPixelSize <= |bytes| && |r| == |bytes|
    ensures r[SinkPixelSize..] == bytes[SinkPixelSize..]
  {
    PrefixReadable(m, src, pitch, |bytes|);
    assert CellReadable(m, src, pitch, |bytes|, LastCell(src)) by {
      assert InGrid(src.rowCount, src.columnCount, LastCell(src));
    }
    Run(env, m, d, src, pitch, bytes, Prefix(src))
  }

  /** On a single pixel the last iteration is the first one. */
  lemma BeforeSinglePixel(env: Env, m: OutputMethod, d: Direction, src: ImageSource, pitch: U32, bytes: seq<uint8>)
    requires PassSafe(m, src, pitch, |bytes|)
    requires src.rowCount == 1 && src.columnCount == 1
    ensures Before(env, m, d, src, pitch, bytes) == bytes
  {
    assert Visits(1, 1) == [Cell(0, 0)] by {
      assert Visits(0, 1) == [];
      assert RowCells(0, 1) == [Cell(0, 0)];
    }
    assert Prefix(src) == [];
  }

  /** A pass over a non-empty grid is its last iteration applied to the
      bytes before it. */
  lemma PassIsLastStep(env: Env, m: OutputMethod, d: Direction, src: ImageSource, pitch: U32, bytes: seq<uint8>)
    requires PassSafe(m, src, pitch, |bytes|)
    requires src.rowCount > 0 && src.columnCount > 0
    ensures CellReadable(m, src, pitch, |bytes|, LastCell(src))
    ensures Pass(env, m, d, src, pitch, bytes)
      == Step(env, m, d, src, pitch, Before(env, m, d, src, pitch, bytes), LastCell(src))
  {
    VisitsLast(src.rowCount, src.columnCount);
    assert InGrid(src.rowCount, src.columnCount, LastCell(src));
    PassReadable(m, src, pitch, |bytes|);
    RunLastStep(env, m, d, src, pitch, bytes, Visits(src.rowCount, src.columnCount));
  }

  /** A pass over a non-empty grid changes only bytes [0, 12), which end up
      holding the bytes of its last iteration, at
      (`columnCount - 1`, `rowCount - 1`). */
  lemma PassLastCellWins(env: Env, m: OutputMethod, d: Direction, src: ImageSource, pitch: U32, bytes: seq<uint8>)
    requires PassSafe(m, src, pitch, |bytes|)
    requires src.rowCount > 0 && src.columnCount > 0
    ensures SinkPixelSize <= |bytes|
    ensures Pass(env, m, d, src, pitch, bytes)[SinkPixelSize..] == bytes[SinkPixelSize..]
    ensures |Before(env, m, d, src, pitch, bytes)| == |bytes|
    ensures CellReadable(m, src, pitch, |bytes|, LastCell(src))
    ensures Pass(env, m, d, src, pitch, bytes)[..SinkPixelSize]
      == CellBytes(env, m, d, src, pitch, Before(env, m, d, src, pitch, bytes), LastCell(src))
  {
    PassIsLastStep(env, m, d, src, pitch, bytes);
  }

  /** A pass over a non-empty grid leaves in bytes [0, 12) what its last
      iteration hands to `SetPixel`, computed from the bytes before it, and
      keeps every other byte. */
  lemma PassStores(env: Env, m: OutputMethod, d: Direction, src: ImageSource, pitch: U32, bytes: seq<uint8>)
    requires PassSafe(m, src, pitch, |bytes|)
    requires src.rowCount > 0 && src.columnCount > 0
    ensures CellReadable(m, src, pitch, |bytes|, LastCell(src))
    ensures Pass(env, m, d, src, pitch, bytes)
      == CellBytes(env, m, d, src, pitch, Before(env, m, d, src, pitch, bytes), LastCell(src)) + bytes[SinkPixelSize..]
  {
    PassIsLastStep(env, m, d, src, pitch, bytes);
    StepStores(env, m, d, src, pitch, Before(env, m, d, src, pitch, bytes), LastCell(src));
  }

  /** An `Overwrite` iteration at (`col`, `row`) hands `SetPixel` the
      pixel's light vector, whatever the sink holds. */
  lemma OverwriteCellBytes(env: Env, d: Direction, src: ImageSource, pitch: U32, bytes: seq<uint8>, col: U32, row: U32)
    requires CellReadable(Overwrite, src, pitch, |bytes|, Cell(row, col))
    ensures SourceReadable(src, col, row)
    ensures CellBytes(env, Overwrite, d, src, pitch, bytes, Cell(row, col)) == Encode(env.codec, SourceLight(env, d, src, col, row))
  {
  }

  /** An `Add` iteration at (`col`, `row`), started from bytes `before` that
      agree with `bytes` past the first 12, hands `SetPixel` the 12 bytes of
      that pixel of `bytes` when the pixel lies past the first 12. */
  lemma AddCellBytes(env: Env, d: Direction, src: ImageSource, pitch: U32,
                     before: seq<uint8>, bytes: seq<uint8>, col: U32, row: U32)
    requires |before| == |bytes| && SinkPixelSize <= |bytes|
    requires before[SinkPixelSize..] == bytes[SinkPixelSize..]
    requires CellReadable(Add, src, pitch, |bytes|, Cell(row, col))
    requires SinkOffset(pitch, col, row) >= SinkPixelSize
    ensures SinkReadable(pitch, |bytes|, col, row)
    ensures CellBytes(env, Add, d, src, pitch, before, Cell(row, col)) == SinkPixelBytes(bytes, pitch, col, row)
  {
    SinkVectorPastPrefix(env.codec, before, bytes, pitch, col, row);
  }

  /** An `AddNormalize` iteration at (`col`, `row`), started from bytes
      `before` that agree with `bytes` past the first 12, hands `SetPixel`
      the normalized sum of that pixel of `bytes` and the light vector when
      the pixel lies past the first 12. */
  lemma AddNormalizeCellBytes(env: Env, d: Direction, src: ImageSource, pitch: U32,
                              before: seq<uint8>, bytes: seq<uint8>, col: U32, row: U32)
    requires |before| == |bytes| && SinkPixelSize <= |bytes|
    requires before[SinkPixelSize..] == bytes[SinkPixelSize..]
    requires CellReadable(AddNormalize, src, pitch, |bytes|, Cell(row, col))
    requires SinkOffset(pitch, col, row) >= SinkPixelSize
    ensures SinkReadable(pitch, |bytes|, col, row)
    ensures SourceReadable(src, col, row)
    ensures CellBytes(env, AddNormalize, d, src, pitch, before, Cell(row, col))
      == Encode(env.codec, Normalize(env.invSqrt, Plus(SinkVector(env.codec, bytes, pitch, col, row),
                                                       SourceLight(env, d, src, col, row))))
  {
    SinkVectorPastPrefix(env.codec, before, bytes, pitch, col, row);
  }

  /** An `Overwrite` pass over a non-empty grid leaves in bytes [0, 12) the
      light vector of the last pixel and leaves every other byte alone. */
  lemma OverwritePass(env: Env, d: Direction, src: ImageSource, pitch: U32, bytes: seq<uint8>)
    requires PassSafe(Overwrite, src, pitch, |bytes|)
    requires src.rowCount > 0 && src.columnCount > 0
    ensures SourceReadable(src, src.columnCount - 1, src.rowCount - 1)
    ensures SinkPixelSize <= |bytes|
    ensures Pass(env, Overwrite, d, src, pitch, bytes)
      == Encode(env.codec, SourceLight(env, d, src, src.columnCount - 1, src.rowCount - 1)) + bytes[SinkPixelSize..]
  {
    PassStores(env, Overwrite, d, src, pitch, bytes);
    assert LastCell(src) == Cell(src.rowCount - 1, src.columnCount - 1);
    OverwriteCellBytes(env, d, src, pitch, Before(env, Overwrite, d, src, pitch, bytes),
                       src.columnCount - 1, src.rowCount - 1);
  }

  /** Under `Add` the sink never depends on the source or the direction:
      two runs over the same cells from the same bytes agree. */
  lemma {:induction false} RunAddIgnoresSource(env: Env, d: Direction, e: Direction, a: ImageSource, b: ImageSource,
                                               pitch: U32, bytes: seq<uint8>, cells: seq<Cell>)
    requires AllReadable(Add, a, pitch, |bytes|, cells)
    requires AllReadable(Add, b, pitch, |bytes|, cells)
    ensures Run(env, Add, d, a, pitch, bytes, cells) == Run(env, Add, e, b, pitch, bytes, cells)
    decreases |cells|
  {
    if cells != [] {
      var prefix := cells[..|cells| - 1];
      RunAddIgnoresSource(env, d, e, a, b, pitch, bytes, prefix);
    }
  }

  /** An `Add` pass does not depend on its source image's pixels or on its
      direction: the vector `v` it computes is never used. */
  lemma AddPassIgnoresSource(env: Env, d: Direction, e: Direction, a: ImageSource, b: ImageSource,
                             pitch: U32, bytes: seq<uint8>)
    requires SameShape(a, b)
    requires PassSafe(Add, a, pitch, |bytes|) && PassSafe(Add, b, pitch, |bytes|)
    ensures Pass(env, Add, d, a, pitch, bytes) == Pass(env, Add, e, b, pitch, bytes)
  {
    var cells := Visits(a.rowCount, a.columnCount);
    VisitsInGrid(a.rowCount, a.columnCount);
    RunAddIgnoresSource(env, d, e, a, b, pitch, bytes, cells);
  }

  /** Offset of the last pixel a pass over `src` visits, in a sink with
      row pitch `pitch`. */
  function LastSinkOffset(src: ImageSource, pitch: U32): U32
    requires src.rowCount > 0 && src.columnCount > 0
  {
    SinkOffset(pitch, src.columnCount - 1, src.rowCount - 1)
  }

  /** When the last pixel's bytes lie past the first 12, an `Add` pass copies
      them into bytes [0, 12) and changes nothing else. */
  lemma AddPassCopiesLastPixel(env: Env, d: Direction, src: ImageSource, pitch: U32, bytes: seq<uint8>)
    requires PassSafe(Add, src, pitch, |bytes|)
    requires src.rowCount > 0 && src.columnCount > 0
    requires LastSinkOffset(src, pitch) >= SinkPixelSize
    ensures LastSinkOffset(src, pitch) + SinkPixelSize <= |bytes|
    ensures Pass(env, Add, d, src, pitch, bytes)
      == bytes[LastSinkOffset(src, pitch)..LastSinkOffset(src, pitch) + SinkPixelSize] + bytes[SinkPixelSize..]
  {
    PassStores(env, Add, d, src, pitch, bytes);
    assert LastCell(src) == Cell(src.rowCount - 1, src.columnCount - 1);
    AddCellBytes(env, d, src, pitch, Before(env, Add, d, src, pitch, bytes), bytes,
                 src.columnCount - 1, src.rowCount - 1);
  }

  /** With the last pixel past the first 12 bytes, an `Add` pass leaves the
      sink unchanged exactly when the last pixel's 12 bytes already equal
      bytes [0, 12). */
  lemma AddPassNoOpIff(env: Env, d: Direction, src: ImageSource, pitch: U32, bytes: seq<uint8>)
    requires PassSafe(Add, src, pitch, |bytes|)
    requires src.rowCount > 0 && src.columnCount > 0
    requires LastSinkOffset(src, pitch) >= SinkPixelSize
    ensures LastSinkOffset(src, pitch) + SinkPixelSize <= |bytes|
    ensures Pass(env, Add, d, src, pitch, bytes) == bytes
      <==> bytes[LastSinkOffset(src, pitch)..LastSinkOffset(src, pitch) + SinkPixelSize] == bytes[..SinkPixelSize]
  {
    var o := LastSinkOffset(src, pitch);
    AddPassCopiesLastPixel(env, d, src, pitch, bytes);
    var last := bytes[o..o + SinkPixelSize];
    var after := Pass(env, Add, d, src, pitch, bytes);
    assert after == last + bytes[SinkPixelSize..];
    assert bytes == bytes[..SinkPixelSize] + bytes[SinkPixelSize..];
    if after == bytes {
      assert after[..SinkPixelSize] == last;
    }
  }

  /** On a single-pixel grid an `Add` pass is a no-op: it copies bytes
      [0, 12) onto themselves. */
  lemma AddPassSinglePixel(env: Env, d: Direction, src: ImageSource, pitch: U32, bytes: seq<uint8>)
    requires PassSafe(Add, src, pitch, |bytes|)
    requires src.rowCount == 1 && src.columnCount == 1
    ensures Pass(env, Add, d, src, pitch, bytes) == bytes
  {
    var before := Before(env, Add, d, src, pitch, bytes);
    PassIsLastStep(env, Add, d, src, pitch, bytes);
    BeforeSinglePixel(env, Add, d, src, pitch, bytes);
    assert SinkOffset(pitch, 0, 0) == 0;
    assert bytes == bytes[..SinkPixelSize] + bytes[SinkPixelSize..];
  }

  /** When the last pixel's bytes lie past the first 12, an `AddNormalize`
      pass stores in bytes [0, 12) the normalized sum of those bytes, read
      as a `float3`, and the last pixel's light vector. */
  lemma AddNormalizePassOutcome(env: Env, d: Direction, src: ImageSource, pitch: U32, bytes: seq<uint8>)
    requires PassSafe(AddNormalize, src, pitch, |bytes|)
    requires src.rowCount > 0 && src.columnCount > 0
    requires LastSinkOffset(src, pitch) >= SinkPixelSize
    ensures SinkReadable(pitch, |bytes|, src.columnCount - 1, src.rowCount - 1)
    ensures SourceReadable(src, src.columnCount - 1, src.rowCount - 1)
    ensures Pass(env, AddNormalize, d, src, pitch, bytes)
      == Encode(env.codec, Normalize(env.invSqrt, Plus(
           SinkVector(env.codec, bytes, pitch, src.columnCount - 1, src.rowCount - 1),
           SourceLight(env, d, src, src.columnCount - 1, src.rowCount - 1))))
         + bytes[SinkPixelSize..]
  {
    PassStores(env, AddNormalize, d, src, pitch, bytes);
    assert LastCell(src) == Cell(src.rowCount - 1, src.columnCount - 1);
    AddNormalizeCellBytes(env, d, src, pitch, Before(env, AddNormalize, d, src, pitch, bytes), bytes,
                          src.columnCount - 1, src.rowCount - 1);
  }

  /** The first three passes of `GenerateNormalMap` change only bytes [0, 12). */
  lemma FirstThreePassesKeepTail(env: Env, sources: seq<ImageSource>, pitch: U32, bytes: seq<uint8>)
    requires |sources| == 4
    requires GenerateSafe(sources, pitch, |bytes|)
    requires sources[0].rowCount > 0 && sources[0].columnCount > 0
    requires ShapesMatch(sources)
    ensures SinkPixelSize <= |bytes|
    ensures
      var north := Pass(env, Overwrite, North, sources[0], pitch, bytes);
      var east := Pass(env, Add, East, sources[1], pitch, north);
      var south := Pass(env, Add, South, sources[2], pitch, east);
      |south| == |bytes| && south[SinkPixelSize..] == bytes[SinkPixelSize..]
  {
    var north := Pass(env, Overwrite, North, sources[0], pitch, bytes);
    PassLastCellWins(env, Overwrite, North, sources[0], pitch, bytes);
    var east := Pass(env, Add, East, sources[1], pitch, north);
    PassLastCellWins(env, Add, East, sources[1], pitch, north);
    PassLastCellWins(env, Add, South, sources[2], pitch, east);
  }

  /** The final pass of `GenerateNormalMap` started from bytes that agree
      with the caller's past the first 12. */
  lemma FinalPass(env: Env, src: ImageSource, pitch: U32, bytes: seq<uint8>, south: seq<uint8>)
    requires |south| == |bytes| && SinkPixelSize <= |bytes|
    requires south[SinkPixelSize..] == bytes[SinkPixelSize..]
    requires PassSafe(AddNormalize, src, pitch, |bytes|)
    requires src.rowCount > 0 && src.columnCount > 0
    requires LastSinkOffset(src, pitch) >= SinkPixelSize
    ensures SinkReadable(pitch, |bytes|, src.columnCount - 1, src.rowCount - 1)
    ensures SourceReadable(src, src.columnCount - 1, src.rowCount - 1)
    ensures Pass(env, AddNormalize, West, src, pitch, south)
      == Encode(env.codec, Normalize(env.invSqrt, Plus(
           SinkVector(env.codec, bytes, pitch, src.columnCount - 1, src.rowCount - 1),
           SourceLight(env, West, src, src.columnCount - 1, src.rowCount - 1))))
         + bytes[SinkPixelSize..]
  {
    PassStores(env, AddNormalize, West, src, pitch, south);
    assert LastCell(src) == Cell(src.rowCount - 1, src.columnCount - 1);
    AddNormalizeCellBytes(env, West, src, pitch, Before(env, AddNormalize, West, src, pitch, south), bytes,
                          src.columnCount - 1, src.rowCount - 1);
  }

  /** When the shapes match and the grid is not empty, with the last pixel
      past the first 12 bytes of the sink, `GenerateNormalMap` leaves in
      bytes [0, 12) the normalized sum of the caller's own last pixel, as
      `GetPixel` reads it, and the West vector of that pixel of
      `sources[3]`; no other byte changes, and `sources[0]` to `sources[2]`
      have no influence. */
  lemma NormalMapOutcome(env: Env, sources: seq<ImageSource>, pitch: U32, bytes: seq<uint8>)
    requires |sources| == 4
    requires ShapesMatch(sources) && GenerateSafe(sources, pitch, |bytes|)
    requires sources[0].rowCount > 0 && sources[0].columnCount > 0
    requires LastSinkOffset(sources[0], pitch) >= SinkPixelSize
    ensures SinkReadable(pitch, |bytes|, sources[0].columnCount - 1, sources[0].rowCount - 1)
    ensures SourceReadable(sources[3], sources[0].columnCount - 1, sources[0].rowCount - 1)
    ensures NormalMap(env, sources, pitch, bytes) == Some(
      Encode(env.codec, Normalize(env.invSqrt, Plus(
        SinkVector(env.codec, bytes, pitch, sources[0].columnCount - 1, sources[0].rowCount - 1),
        SourceLight(env, West, sources[3], sources[0].columnCount - 1, sources[0].rowCount - 1))))
      + bytes[SinkPixelSize..])
  {
    var north := Pass(env, Overwrite, North, sources[0], pitch, bytes);
    var east := Pass(env, Add, East, sources[1], pitch, north);
    var south := Pass(env, Add, South, sources[2], pitch, east);
    FirstThreePassesKeepTail(env, sources, pitch, bytes);
    assert NormalMap(env, sources, pitch, bytes) == Some(Pass(env, AddNormalize, West, sources[3], pitch, south));
    assert sources[3].rowCount == sources[0].rowCount && sources[3].columnCount == sources[0].columnCount;
    FinalPass(env, sources[3], pitch, bytes, south);
  }

  /** On an empty grid `GenerateNormalMap` succeeds and leaves the sink alone. */
  lemma NormalMapEmptyGrid(env: Env, sources: seq<ImageSource>, pitch: U32, bytes: seq<uint8>)
    requires |sources| == 4
    requires ShapesMatch(sources) && GenerateSafe(sources, pitch, |bytes|)
    requires sources[0].rowCount == 0 || sources[0].columnCount == 0
    ensures NormalMap(env, sources, pitch, bytes) == Some(bytes)
  {
    PassEmptyGrid(env, Overwrite, North, sources[0], pitch, bytes);
    PassEmptyGrid(env, Add, East, sources[1], pitch, bytes);
    PassEmptyGrid(env, Add, South, sources[2], pitch, bytes);
    PassEmptyGrid(env, AddNormalize, West, sources[3], pitch, bytes);
  }

  /** On a single-pixel grid an `AddNormalize` pass stores the normalized
      sum of pixel (0, 0), as `GetPixel` reads it, and the pixel's light
      vector. */
  lemma AddNormalizePassSinglePixel(env: Env, d: Direction, src: ImageSource, pitch: U32, bytes: seq<uint8>)
    requires PassSafe(AddNormalize, src, pitch, |bytes|)
    requires src.rowCount == 1 && src.columnCount == 1
    ensures SinkReadable(pitch, |bytes|, 0, 0) && SourceReadable(src, 0, 0)
    ensures Pass(env, AddNormalize, d, src, pitch, bytes)
      == Encode(env.codec, Normalize(env.invSqrt, Plus(SinkVector(env.codec, bytes, pitch, 0, 0), SourceLight(env, d, src, 0, 0))))
         + bytes[SinkPixelSize..]
  {
    PassIsLastStep(env, AddNormalize, d, src, pitch, bytes);
    BeforeSinglePixel(env, AddNormalize, d, src, pitch, bytes);
    StepStores(env, AddNormalize, d, src, pitch, bytes, LastCell(src));
    CellBytesCases(env, AddNormalize, d, src, pitch, bytes, LastCell(src));
  }

  /** On a single-pixel grid every pass stores at the pixel's own offset, 0,
      so the North vector does reach the output: the two `Add` passes keep
      it, and the last pass adds the West vector to it as it reads back
      after its float store. */
  lemma NormalMapSinglePixel(env: Env, sources: seq<ImageSource>, pitch: U32, bytes: seq<uint8>)
    requires |sources| == 4
    requires ShapesMatch(sources) && GenerateSafe(sources, pitch, |bytes|)
    requires sources[0].rowCount == 1 && sources[0].columnCount == 1
    ensures SourceReadable(sources[0], 0, 0) && SourceReadable(sources[3], 0, 0)
    ensures SinkPixelSize <= |bytes|
    ensures
      var n := SourceLight(env, North, sources[0], 0, 0);
      NormalMap(env, sources, pitch, bytes) == Some(
        Encode(env.codec, Normalize(env.invSqrt, Plus(
          Float3(Round(env.codec, n.x), Round(env.codec, n.y), Round(env.codec, n.z)),
          SourceLight(env, West, sources[3], 0, 0))))
        + bytes[SinkPixelSize..])
  {
    OverwritePass(env, North, sources[0], pitch, bytes);
    var n := SourceLight(env, North, sources[0], 0, 0);
    var north := Pass(env, Overwrite, North, sources[0], pitch, bytes);
    assert north == Stored(bytes, Encode(env.codec, n));
    AddPassSinglePixel(env, East, sources[1], pitch, north);
    AddPassSinglePixel(env, South, sources[2], pitch, north);
    assert NormalMap(env, sources, pitch, bytes) == Some(Pass(env, AddNormalize, West, sources[3], pitch, north));
    AddNormalizePassSinglePixel(env, West, sources[3], pitch, north);
    assert SinkOffset(pitch, 0, 0) == 0;
    StoredReadBack(env.codec, bytes, n, pitch, 0, 0);
    assert north[SinkPixelSize..] == bytes[SinkPixelSize..];
  }
}
