/** The directional accumulation of generation.cpp: the templated pass
    `Process<Method, Direction>` and the orchestrator `GenerateNormalMap`.
    The template parameters become enum arguments; the platform's float
    semantics and `char` signedness are gathered in `Env`. */
module Generation {
  import opened Vectors
  import opened Pixels
  import opened Traversal

  /** How a pass combines its vector with what the sink holds. */
  datatype OutputMethod = Overwrite | Add | AddNormalize

  /** The side the light of a source image comes from. */
  datatype Direction = North | East | South | West

  /** What the model leaves to the platform: whether `char` is signed, how
      floats are stored, and the reciprocal square root that `Normalize` uses. */
  datatype Env = Env(chars: CharSign, codec: Codec, invSqrt: real -> real)

  datatype Option<T> = None | Some(value: T)

  /** The template `Equal`: all four arguments are the same. It is never
      called in generation.cpp. */
  function Equal<T(==)>(a: T, b: T, c: T, d: T): bool
  {
    a == b && a == c && a == d
  }

  /** `SameShape`: equal row counts and equal column counts. */
  predicate SameShape(a: ImageSource, b: ImageSource)
  {
    a.rowCount == b.rowCount && a.columnCount == b.columnCount
  }

  /** `SameShape` is an equivalence relation. */
  lemma SameShapeIsEquivalence(a: ImageSource, b: ImageSource, c: ImageSource)
    ensures SameShape(a, a)
    ensures SameShape(a, b) <==> SameShape(b, a)
    ensures SameShape(a, b) && SameShape(b, c) ==> SameShape(a, c)
  {
  }

  /** Twice the sample minus one: maps [0, 1] onto [-1, 1], dark to -1 and lit
      to 1, and is undone by `(r + 1) / 2`. */
  function Unbias(sample: real): (r: real)
    ensures (r + 1.0) / 2.0 == sample
    ensures 0.0 <= sample <= 1.0 ==> -1.0 <= r <= 1.0
    ensures sample == 0.0 ==> r == -1.0
    ensures sample == 1.0 ==> r == 1.0
  {
    sample * 2.0 - 1.0
  }

  /** North and South light the y axis, East and West the x axis. */
  predicate Vertical(d: Direction)
  {
    d == North || d == South
  }

  /** North and East contribute with a plus sign, South and West with a minus. */
  function Sign(d: Direction): real
  {
    if d == North || d == East then 1.0 else -1.0
  }

  /** The `switch (LightDirection)` of `Process`: starting from `{}`, exactly
      one axis, chosen by the direction, receives the signed value; z stays 0. */
  function LightVector(d: Direction, unbiased: real): (v: Float3)
    ensures v.z == 0.0
    ensures Vertical(d) ==> v.x == 0.0 && v.y == Sign(d) * unbiased
    ensures !Vertical(d) ==> v.y == 0.0 && v.x == Sign(d) * unbiased
  {
    match d
    case North => Float3(Zero.x, unbiased, Zero.z)
    case East => Float3(unbiased, Zero.y, Zero.z)
    case South => Float3(Zero.x, -unbiased, Zero.z)
    case West => Float3(-unbiased, Zero.y, Zero.z)
  }

  /** The vector a pass computes from source pixel (`col`, `row`). */
  function SourceLight(env: Env, d: Direction, src: ImageSource, col: U32, row: U32): Float3
    requires SourceReadable(src, col, row)
  {
    LightVector(d, Unbias(Intensity(GetSourcePixel(env.chars, src, col, row))))
  }

  /** Everything one iteration of a pass at `cell` reads lies inside the
      source buffer and a sink buffer of `len` bytes. */
  predicate CellReadable(m: OutputMethod, src: ImageSource, pitch: U32, len: nat, cell: Cell)
  {
    && SourceReadable(src, cell.col, cell.row)
    && SinkPixelSize <= len
    && (m != Overwrite ==> SinkReadable(pitch, len, cell.col, cell.row))
  }

  /** The 12 bytes of the `float3` one iteration passes to `SetPixel`,
      given the sink's bytes before it: the `switch (Method)` of `Process`.
      `Overwrite` and `AddNormalize` pass a computed vector, stored as floats;
      `Add` passes on the `float3` that `GetPixel` copied out of the sink,
      bytes and all, and never uses the computed vector. */
  function CellBytes(env: Env, m: OutputMethod, d: Direction, src: ImageSource, pitch: U32,
                     bytes: seq<uint8>, cell: Cell): (r: seq<uint8>)
    requires CellReadable(m, src, pitch, |bytes|, cell)
    ensures |r| == SinkPixelSize
  {
    var v := SourceLight(env, d, src, cell.col, cell.row);
    match m
    case Overwrite => Encode(env.codec, v)
    case Add => SinkPixelBytes(bytes, pitch, cell.col, cell.row)
    case AddNormalize =>
      Encode(env.codec, Normalize(env.invSqrt, Plus(SinkVector(env.codec, bytes, pitch, cell.col, cell.row), v)))
  }

  /** The sink's bytes after one iteration at `cell`. */
  function Step(env: Env, m: OutputMethod, d: Direction, src: ImageSource, pitch: U32,
                bytes: seq<uint8>, cell: Cell): seq<uint8>
    requires CellReadable(m, src, pitch, |bytes|, cell)
  {
    Stored(bytes, CellBytes(env, m, d, src, pitch, bytes, cell))
  }

  /** The bytes each method hands to `SetPixel`. */
  lemma CellBytesCases(env: Env, m: OutputMethod, d: Direction, src: ImageSource, pitch: U32,
                       bytes: seq<uint8>, cell: Cell)
    requires CellReadable(m, src, pitch, |bytes|, cell)
    ensures m == Overwrite ==>
      CellBytes(env, m, d, src, pitch, bytes, cell) == Encode(env.codec, SourceLight(env, d, src, cell.col, cell.row))
    ensures m == Add ==>
      CellBytes(env, m, d, src, pitch, bytes, cell) == SinkPixelBytes(bytes, pitch, cell.col, cell.row)
    ensures m == AddNormalize ==>
      CellBytes(env, m, d, src, pitch, bytes, cell)
        == Encode(env.codec, Normalize(env.invSqrt, Plus(SinkVector(env.codec, bytes, pitch, cell.col, cell.row),
                                                         SourceLight(env, d, src, cell.col, cell.row))))
  {
  }

  /** One iteration writes its bytes to [0, 12) and keeps the rest. */
  lemma StepStores(env: Env, m: OutputMethod, d: Direction, src: ImageSource, pitch: U32,
                   bytes: seq<uint8>, cell: Cell)
    requires CellReadable(m, src, pitch, |bytes|, cell)
    ensures Step(env, m, d, src, pitch, bytes, cell)
      == CellBytes(env, m, d, src, pitch, bytes, cell) + bytes[SinkPixelSize..]
  {
  }

  /** Every iteration at one of `cells` stays inside the buffers. */
  predicate AllReadable(m: OutputMethod, src: ImageSource, pitch: U32, len: nat, cells: seq<Cell>)
  {
    forall k :: 0 <= k < |cells| ==> CellReadable(m, src, pitch, len, cells[k])
  }

  /** The sink's bytes after iterations at `cells`, in order. Only the first
      12 bytes ever change. */
  function Run(env: Env, m: OutputMethod, d: Direction, src: ImageSource, pitch: U32,
               bytes: seq<uint8>, cells: seq<Cell>): (r: seq<uint8>)
    requires AllReadable(m, src, pitch, |bytes|, cells)
    ensures |r| == |bytes|
    ensures cells != [] ==> SinkPixelSize <= |bytes| && r[SinkPixelSize..] == bytes[SinkPixelSize..]
    decreases |cells|
  {
    if cells == [] then bytes
    else
      var before := Run(env, m, d, src, pitch, bytes, cells[..|cells| - 1]);
      Step(env, m, d, src, pitch, before, cells[|cells| - 1])
  }

  /** Every iteration of a pass over `src` stays inside the buffers. */
  ghost predicate PassSafe(m: OutputMethod, src: ImageSource, pitch: U32, len: nat)
  {
    forall cell :: InGrid(src.rowCount, src.columnCount, cell) ==> CellReadable(m, src, pitch, len, cell)
  }

  /** Every iteration of a safe pass stays inside the buffers. */
  lemma PassReadable(m: OutputMethod, src: ImageSource, pitch: U32, len: nat)
    requires PassSafe(m, src, pitch, len)
    ensures AllReadable(m, src, pitch, len, Visits(src.rowCount, src.columnCount))
  {
    VisitsInGrid(src.rowCount, src.columnCount);
  }

  /** A run over a non-empty list of cells ends with the step at its last cell. */
  lemma RunLastStep(env: Env, m: OutputMethod, d: Direction, src: ImageSource, pitch: U32,
                    bytes: seq<uint8>, cells: seq<Cell>)
    requires AllReadable(m, src, pitch, |bytes|, cells)
    requires cells != []
    ensures Run(env, m, d, src, pitch, bytes, cells)
      == Step(env, m, d, src, pitch, Run(env, m, d, src, pitch, bytes, cells[..|cells| - 1]), cells[|cells| - 1])
  {
  }

  /** The sink's bytes after `Process<m, d>(src, ...)`. */
  function Pass(env: Env, m: OutputMethod, d: Direction, src: ImageSource, pitch: U32,
                bytes: seq<uint8>): (r: seq<uint8>)
    requires PassSafe(m, src, pitch, |bytes|)
  {
    PassReadable(m, src, pitch, |bytes|);
    Run(env, m, d, src, pitch, bytes, Visits(src.rowCount, src.columnCount))
  }

  /** The cells visited before iteration (`col`, `row`) of a grid `cols` wide. */
  function Done(cols: U32, row: U32, col: U32): seq<Cell>
  {
    Visits(row, cols) + RowCells(row, col)
  }

  /** The cells visited before iteration (`col`, `row`) all lie in the grid. */
  lemma PrefixInGrid(rows: U32, cols: U32, row: U32, col: U32)
    requires row < rows && col <= cols
    ensures forall k :: 0 <= k < |Done(cols, row, col)| ==> InGrid(rows, cols, Done(cols, row, col)[k])
  {
    VisitsInGrid(row, cols);
    var done := Done(cols, row, col);
    forall k | 0 <= k < |done|
      ensures InGrid(rows, cols, done[k])
    {
      if k < |Visits(row, cols)| {
        assert done[k] == Visits(row, cols)[k];
      } else {
        assert done[k] == RowCells(row, col)[k - |Visits(row, cols)|];
      }
    }
  }

  /** One more iteration of the inner loop extends the run by one step. */
  lemma RunExtends(env: Env, m: OutputMethod, d: Direction, src: ImageSource, pitch: U32,
                   bytes: seq<uint8>, row: U32, col: U32)
    requires row < src.rowCount && col < src.columnCount
    requires PassSafe(m, src, pitch, |bytes|)
    ensures AllReadable(m, src, pitch, |bytes|, Done(src.columnCount, row, col))
    ensures AllReadable(m, src, pitch, |bytes|, Done(src.columnCount, row, col + 1))
    ensures CellReadable(m, src, pitch, |bytes|, Cell(row, col))
    ensures Run(env, m, d, src, pitch, bytes, Done(src.columnCount, row, col + 1))
      == Step(env, m, d, src, pitch, Run(env, m, d, src, pitch, bytes, Done(src.columnCount, row, col)), Cell(row, col))
  {
    PrefixInGrid(src.rowCount, src.columnCount, row, col);
    PrefixInGrid(src.rowCount, src.columnCount, row, col + 1);
    var done := Done(src.columnCount, row, col);
    assert RowCells(row, col + 1) == RowCells(row, col) + [Cell(row, col)];
    assert Done(src.columnCount, row, col + 1) == done + [Cell(row, col)];
    assert (done + [Cell(row, col)])[..|done|] == done;
    assert InGrid(src.rowCount, src.columnCount, Cell(row, col));
  }

  /** Finishing a row of the outer loop. */
  lemma RowDone(rows: U32, cols: U32, row: U32)
    requires row < rows
    ensures Done(cols, row, cols) == Visits(row + 1, cols)
    ensures Done(cols, row, 0) == Visits(row, cols)
  {
    assert RowCells(row, 0) == [];
  }

  /** `Process<m, d>(src, dst)`: visits the grid of `src` row by row and
      stores one vector per pixel through `SetPixel`. */
  method Process(env: Env, m: OutputMethod, d: Direction, src: ImageSource, dst: NormalSink)
    requires PassSafe(m, src, dst.rowPitchInBytes, dst.normalBytes.Length)
    modifies dst.normalBytes
    ensures dst.normalBytes[..] == Pass(env, m, d, src, dst.rowPitchInBytes, old(dst.normalBytes[..]))
  {
    ghost var start := dst.normalBytes[..];
    var pitch := dst.rowPitchInBytes;
    var row: U32 := 0;
    while row < src.rowCount
      invariant row <= src.rowCount
      invariant AllReadable(m, src, pitch, |start|, Visits(row, src.columnCount))
      invariant dst.normalBytes[..] == Run(env, m, d, src, pitch, start, Visits(row, src.columnCount))
    {
      RowDone(src.rowCount, src.columnCount, row);
      var col: U32 := 0;
      while col < src.columnCount
        invariant col <= src.columnCount
        invariant AllReadable(m, src, pitch, |start|, Done(src.columnCount, row, col))
        invariant dst.normalBytes[..] == Run(env, m, d, src, pitch, start, Done(src.columnCount, row, col))
      {
        RunExtends(env, m, d, src, pitch, start, row, col);
        ghost var before := dst.normalBytes[..];
        var sample := Intensity(GetSourcePixel(env.chars, src, col, row));
        var unbiased := Unbias(sample);
        var v := LightVector(d, unbiased);
        match m {
          case Overwrite =>
            SetPixel(dst, col, row, Encode(env.codec, v));
          case Add =>
            SetPixel(dst, col, row, SinkPixelBytes(dst.normalBytes[..], pitch, col, row));
          case AddNormalize =>
            var sum := Plus(SinkVector(env.codec, dst.normalBytes[..], pitch, col, row), v);
            SetPixel(dst, col, row, Encode(env.codec, Normalize(env.invSqrt, sum)));
        }
        assert dst.normalBytes[..] == Step(env, m, d, src, pitch, before, Cell(row, col));
        col := col + 1;
      }
      row := row + 1;
    }
  }

  /** The shape comparison at the start of `GenerateNormalMap`: every other source has
      the shape of `sources[0]`. */
  predicate ShapesMatch(sources: seq<ImageSource>)
    requires |sources| == 4
  {
    SameShape(sources[0], sources[1]) && SameShape(sources[0], sources[2]) && SameShape(sources[0], sources[3])
  }

  /** Comparing against `sources[0]` alone decides whether all four sources
      share one shape, which is the template `Equal` applied to the row
      counts and to the column counts. */
  lemma ShapesMatchMeansAllSame(sources: seq<ImageSource>)
    requires |sources| == 4
    ensures ShapesMatch(sources) <==>
      forall i, j :: 0 <= i < 4 && 0 <= j < 4 ==> SameShape(sources[i], sources[j])
    ensures ShapesMatch(sources) <==>
      Equal(sources[0].rowCount, sources[1].rowCount, sources[2].rowCount, sources[3].rowCount) &&
      Equal(sources[0].columnCount, sources[1].columnCount, sources[2].columnCount, sources[3].columnCount)
  {
    if ShapesMatch(sources) {
      forall i, j | 0 <= i < 4 && 0 <= j < 4
        ensures SameShape(sources[i], sources[j])
      {
        assert SameShape(sources[0], sources[i]) && SameShape(sources[0], sources[j]);
      }
    }
  }

  /** The four passes of `GenerateNormalMap`, each over its own source. */
  ghost predicate GenerateSafe(sources: seq<ImageSource>, pitch: U32, len: nat)
    requires |sources| == 4
  {
    && PassSafe(Overwrite, sources[0], pitch, len)
    && PassSafe(Add, sources[1], pitch, len)
    && PassSafe(Add, sources[2], pitch, len)
    && PassSafe(AddNormalize, sources[3], pitch, len)
  }

  /** What `GenerateNormalMap` leaves in a sink holding `bytes`: nothing when
      the shapes differ, otherwise the result of the four passes in order. */
  function NormalMap(env: Env, sources: seq<ImageSource>, pitch: U32, bytes: seq<uint8>): (r: Option<seq<uint8>>)
    requires |sources| == 4
    requires ShapesMatch(sources) ==> GenerateSafe(sources, pitch, |bytes|)
    ensures r.Some? ==> |r.value| == |bytes|
  {
    if !ShapesMatch(sources) then None
    else
      var north := Pass(env, Overwrite, North, sources[0], pitch, bytes);
      var east := Pass(env, Add, East, sources[1], pitch, north);
      var south := Pass(env, Add, South, sources[2], pitch, east);
      Some(Pass(env, AddNormalize, West, sources[3], pitch, south))
  }

  /** `GenerateNormalMap`: returns false and writes nothing when a source's
      shape differs from `sources[0]`; otherwise runs (Overwrite, North) on
      `sources[0]`, (Add, East) on `sources[1]`, (Add, South) on `sources[2]`
      and (AddNormalize, West) on `sources[3]`, in that order on the same
      sink, and returns true. */
  method GenerateNormalMap(env: Env, sources: seq<ImageSource>, sink: NormalSink) returns (ok: bool)
    requires |sources| == 4
    requires ShapesMatch(sources) ==> GenerateSafe(sources, sink.rowPitchInBytes, sink.normalBytes.Length)
    modifies sink.normalBytes
    ensures ok <==> ShapesMatch(sources)
    ensures !ok ==> sink.normalBytes[..] == old(sink.normalBytes[..])
    ensures ok ==> sink.normalBytes[..] == NormalMap(env, sources, sink.rowPitchInBytes, old(sink.normalBytes[..])).value
  {
    if !SameShape(sources[0], sources[1]) ||
       !SameShape(sources[0], sources[2]) ||
       !SameShape(sources[0], sources[3]) {
      return false;
    }
    Process(env, Overwrite, North, sources[0], sink);
    Process(env, Add, East, sources[1], sink);
    Process(env, Add, South, sources[2], sink);
    Process(env, AddNormalize, West, sources[3], sink);
    return true;
  }
}
