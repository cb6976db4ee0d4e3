# NormalMapGen generation core in Dafny

This project models `generation.cpp` of NormalMapGenStandAlone. That file builds a
normal map from four grey-scale light images, one per cardinal
direction (North, East, South, West). It makes four passes over one shared
sink buffer of 12-byte `float3` pixels. Each pass reads one source image,
collapses each pixel to its brightest channel, maps the value onto one axis,
and combines it with the sink using one of three methods:

- `Overwrite` stores the computed vector.
- `Add` stores the sink pixel it just read.
- `AddNormalize` stores the normalized sum of the sink pixel and the vector.

Module layout, following the source:

- `Vectors` (`vectors.dfy`): `float3`, `operator +`, `Dot`, `Normalize`, `Intensity`.
- `Pixels` (`pixels.dfy`):
  - the `ImageSource` and `NormalSink` views of generation.h;
  - the `uint32_t` offset arithmetic;
  - the source `GetPixel` (which reads through `char const*`);
  - the sink `GetPixel` and `SetPixel`, both of which work through `memcpy`.
- `Traversal` (`traversal.dfy`): the order in which `Process`'s nested loops visit the grid.
- `Generation` (`generation.dfy`):
  - `Process<Method, Direction>` as a method with loop invariants over the sink's `array<uint8>`;
  - the function `Pass` that specifies it;
  - `GenerateNormalMap` as a method, specified by the function `NormalMap`.
- `PassLaws` (`passes.dfy`): what the passes do to the sink, proved about `Pass` and `NormalMap`.

The model follows the code as written, in particular:

- **`SetPixel` writes at the start of the buffer.** It computes the pixel's
  offset but `memcpy`s into `img.normalBytes` itself. Every store therefore
  lands on bytes [0, 12), whatever `col` and `row` are (`Pixels.Stored`,
  `Pixels.SetPixel`).
- **Consequence for a pass.** After a pass over a non-empty grid, bytes
  [0, 12) hold the bytes of the last iteration, at
  (`columnCount - 1`, `rowCount - 1`). No other byte changes.
- **`Add` ignores the vector it computes.** It copies the sink pixel's 12
  bytes into a `float3` and hands that `float3`, unchanged, to `SetPixel`,
  which copies the same 12 bytes out again. No float arithmetic touches
  them, so the model moves the bytes themselves (`Generation.CellBytes`).
  As a result `Add` is not a no-op in general. When the last pixel's offset
  is 12 or more:
  - an `Add` pass copies that pixel's 12 bytes into bytes [0, 12)
    (`PassLaws.AddPassCopiesLastPixel`);
  - the sink stays unchanged exactly when those two 12-byte spans are
    already equal (`PassLaws.AddPassNoOpIff`).

  On a 1x1 grid an `Add` pass is a no-op (`PassLaws.AddPassSinglePixel`).
- **The final result.** Because `SetPixel` does not write at each pixel's
  offset and `Add` is not a no-op, uniform sources do not give the same
  vector at every pixel. Instead, when the last pixel lies past the first
  12 bytes, `GenerateNormalMap` leaves in bytes [0, 12) the normalized sum
  of two vectors only (`PassLaws.NormalMapOutcome`):
  - the caller's own last sink pixel;
  - the West vector of the last pixel of `sources[3]`.

  The North pass has no influence in that case. On a 1x1 grid every pass
  stores at the pixel's own offset, 0. The result is then the normalized sum
  of the North vector, rounded by its float store, and the West vector
  (`PassLaws.NormalMapSinglePixel`).

What the platform decides is a parameter, gathered in `Generation.Env`:

- the signedness of `char` (`Pixels.CharSign`);
- how a `float` is stored as four bytes and read back (`Pixels.Codec`);
- the reciprocal square root that `Normalize` scales by.

Values are exact reals. Bytes are the integers 0 to 255 (`Pixels.uint8`).

## Model

| member | source | states |
|---|---|---|
| Vectors.Plus | generation.cpp:18-24 | no contract of its own: the component-wise sum; its laws are stated by `Vectors.PlusLaws` |
| Vectors.PlusLaws | generation.cpp:18-24 | `operator +` is commutative and the zero vector `{}` is its identity |
| Vectors.Intensity | generation.cpp:39-42 | the result is at least each channel and equals one of them (ties included) |
| Vectors.Dot | generation.cpp:66-69 | the sum of squares is never negative |
| Vectors.DotScale | generation.cpp:71-74 | scaling a vector by `s` scales `Dot` by `s * s` |
| Vectors.Normalize | generation.cpp:71-75 | no contract of its own: `v` scaled by the inverse square root of `Dot(v)`; its unit length is stated by `Vectors.NormalizeIsUnit` |
| Vectors.NormalizeIsUnit | generation.cpp:71-75 | with an exact inverse square root and a non-zero vector, `Normalize` yields unit length |
| Pixels.Offset | generation.cpp:44-46 | the byte offset is `(col * pixelSize + row * pitch) mod 2^32`, the `uint32_t` wrap-around of the exact expression |
| Pixels.OffsetSteps | generation.cpp:52-54 | the next column lies `pixelSize` bytes further and the next row `pitch` bytes further, modulo 2^32 |
| Pixels.CharValue | generation.cpp:47-48 | a byte read through `char` is the byte itself (unsigned `char`) or its two's-complement value (signed `char`); either way it is congruent to the byte modulo 256 |
| Pixels.ChannelRange | generation.cpp:48 | with unsigned `char` a channel lies in [0, 1]; with signed `char` it agrees below 128 and is negative, exactly 256/255 lower, from 128 up |
| Pixels.Channel | generation.cpp:48 | no contract of its own: a byte read through `char` divided by 255; its range under either signedness is stated by `Pixels.ChannelRange` |
| Pixels.GetSourcePixel | generation.cpp:44-50 | with unsigned `char` all three components lie in [0, 1] |
| Pixels.GetSourcePixelReadsThreeBytes | generation.cpp:47-48 | a source pixel's value depends on its first three bytes only; the fourth is never read |
| Pixels.Encode | generation.cpp:60-63 | the `float3` a store copies into the sink is 12 bytes, x then y then z; that reading them back rounds each component is stated by `Pixels.DecodeEncode` |
| Pixels.Decode | generation.cpp:55-56 | no contract of its own: the `float3` that 12 copied bytes hold, each four loaded as a float; stated by `Pixels.DecodeEncode` and `Pixels.StoredReadBack` |
| Pixels.DecodeEncode | generation.cpp:55-56 | reading back a stored `float3` gives each component rounded as a float store rounds it, and a representable vector unchanged |
| Pixels.Stored | generation.cpp:60-64 | a store keeps the buffer's length, puts the value's 12 bytes in bytes [0, 12) and leaves every later byte as it was |
| Pixels.StoredReadBack | generation.cpp:52-64 | after storing a vector, the pixel at offset 0 holds its bytes and reads back each component rounded; a pixel whose offset is 12 or more keeps its bytes |
| Pixels.SinkPixelBytes | generation.cpp:52-58 | the sink `GetPixel` copies exactly 12 bytes; the body takes bytes [offset, offset + 12), and `Pixels.StoredReadBack` and `Pixels.SinkVectorPastPrefix` say how a store affects them |
| Pixels.SinkVector | generation.cpp:52-58 | no contract of its own: the value of the `float3` the sink `GetPixel` returns, its 12 bytes loaded as three floats; its behaviour is stated by `Pixels.StoredReadBack` and `Pixels.SinkVectorPastPrefix` |
| Pixels.SinkVectorPastPrefix | generation.cpp:52-58 | a sink pixel past the first 12 bytes has the same bytes, and reads the same, in two buffers that agree from byte 12 on |
| Pixels.SetPixel | generation.cpp:60-64 | the sink's new bytes are the old ones with the value's 12 bytes in [0, 12), whatever `col` and `row` are |
| Traversal.RowCells | generation.cpp:80 | the inner loop visits `(row, 0)` to `(row, cols - 1)` in order |
| Traversal.Visits | generation.cpp:79-80 | no contract of its own: the cells the nested loops visit; its length, coverage and order are stated by `Traversal.VisitsLength`, `Traversal.VisitsExactlyOnce` and `Traversal.VisitsRowMajor` |
| Traversal.VisitsLength | generation.cpp:79-80 | the loops run `rowCount * columnCount` iterations |
| Traversal.VisitsInGrid | generation.cpp:79-80 | every visited cell lies inside the grid |
| Traversal.VisitsAt | generation.cpp:79-80 | pixel (`col`, `row`) is visited at iteration `row * cols + col` |
| Traversal.VisitsRowMajor | generation.cpp:79-80 | cells are visited in strictly increasing row-major order, rows outer and columns inner |
| Traversal.VisitsExactlyOnce | generation.cpp:79-80 | each grid cell is visited, nothing outside the grid is, no cell twice, `rowCount * columnCount` iterations |
| Traversal.VisitsLast | generation.cpp:79-80 | on a non-empty grid the last iteration is at (`columnCount - 1`, `rowCount - 1`) |
| Generation.SameShape | generation.cpp:10-12 | no contract of its own: equal row counts and equal column counts; stated as an equivalence by `Generation.SameShapeIsEquivalence` |
| Generation.SameShapeIsEquivalence | generation.cpp:10-12 | `SameShape` is reflexive, symmetric and transitive |
| Generation.Unbias | generation.cpp:82 | `sample * 2 - 1` maps [0, 1] onto [-1, 1], 0 to -1 and 1 to 1, and is undone by `(r + 1) / 2` |
| Generation.LightVector | generation.cpp:83-89 | z is 0 and exactly one axis is set: North y = u, South y = -u, East x = u, West x = -u |
| Generation.SourceLight | generation.cpp:81-89 | no contract of its own: the pixel's brightest channel, unbiased and placed on the direction's axis; its parts are stated by `Vectors.Intensity`, `Generation.Unbias` and `Generation.LightVector`, and what a pass does with it by `PassLaws.OverwritePass`, `PassLaws.AddNormalizePassOutcome` and `PassLaws.NormalMapOutcome` |
| Generation.CellBytes | generation.cpp:81-101 | the `float3` one iteration hands to `SetPixel` is 12 bytes: the stored light vector (`Overwrite`), the sink pixel's own bytes (`Add`), or the stored normalized sum (`AddNormalize`); what each method's pass stores is stated by `PassLaws.OverwritePass`, `PassLaws.AddCellBytes` and `PassLaws.AddNormalizeCellBytes` |
| Generation.Step | generation.cpp:90-101 | no contract of its own: one iteration's `SetPixel` of the bytes `CellBytes` gives; its effect is stated by `Generation.Run` (only bytes [0, 12) change) and `PassLaws.PassStores` |
| Generation.Run | generation.cpp:79-101 | iterations keep the sink's length, and a non-empty run changes only bytes [0, 12) |
| Generation.RunExtends | generation.cpp:80 | one more inner-loop iteration extends the run by exactly one step at (`col`, `row`) |
| Generation.Pass | generation.cpp:77-104 | no contract of its own: the run of iterations over `Traversal.Visits`; `Generation.Process` is proved against it and its outcome is stated by `PassLaws.PassLastCellWins` |
| Generation.Process | generation.cpp:77-104 | when every read stays inside the buffers, the sink after the nested loops is `Pass` of the sink before them |
| Generation.ShapesMatch | generation.cpp:107-109 | no contract of its own: the three comparisons against `sources[0]`; their meaning is stated by `Generation.ShapesMatchMeansAllSame` |
| Generation.ShapesMatchMeansAllSame | generation.cpp:5-12 | comparing the other three sources to `sources[0]`, as lines 107-109 do, decides that all four share one shape; that is the template `Equal` (never called in the source) applied to the row counts and to the column counts |
| Generation.NormalMap | generation.cpp:106-117 | when the shapes match, the result has the sink's length |
| Generation.GenerateNormalMap | generation.cpp:106-117 | returns true exactly when the shapes match. On a mismatch no sink byte changes; otherwise the sink ends as the four passes leave it, run in order (Overwrite, North), (Add, East), (Add, South), (AddNormalize, West), each on its own source |
| PassLaws.PassEmptyGrid | generation.cpp:79-80 | a pass over a grid with no rows or no columns leaves the sink unchanged |
| PassLaws.Before | generation.cpp:79-101 | before the last iteration the sink keeps its length and every byte from 12 on |
| PassLaws.BeforeSinglePixel | generation.cpp:79-80 | on a 1x1 grid nothing happens before the last iteration |
| PassLaws.PassIsLastStep | generation.cpp:79-101 | a pass over a non-empty grid is its last iteration applied to the sink as it was before that iteration |
| PassLaws.PassLastCellWins | generation.cpp:60-64 | a pass over a non-empty grid changes only bytes [0, 12), which hold the bytes of the iteration at (`columnCount - 1`, `rowCount - 1`) |
| PassLaws.PassStores | generation.cpp:79-101 | a pass over a non-empty grid is the bytes its last iteration hands to `SetPixel`, computed from the sink before that iteration, followed by the caller's bytes from 12 on |
| PassLaws.OverwritePass | generation.cpp:91-93 | after an `Overwrite` pass over a non-empty grid, bytes [0, 12) hold the last pixel's light vector and all other bytes are unchanged |
| PassLaws.RunAddIgnoresSource | generation.cpp:94-96 | under `Add`, runs over the same cells from the same bytes agree whatever the source pixels and the direction |
| PassLaws.AddPassIgnoresSource | generation.cpp:94-96 | an `Add` pass does not depend on its source image's pixels or its direction |
| PassLaws.AddCellBytes | generation.cpp:94-96 | an `Add` iteration at a pixel past the first 12 bytes hands `SetPixel` that pixel's 12 bytes, which earlier stores to [0, 12) do not affect |
| PassLaws.AddPassCopiesLastPixel | generation.cpp:94-96 | an `Add` pass whose last pixel lies past the first 12 bytes copies that pixel's 12 bytes into bytes [0, 12) and changes nothing else |
| PassLaws.AddPassNoOpIff | generation.cpp:94-96 | with the last pixel past the first 12 bytes, an `Add` pass leaves the sink unchanged if and only if the last pixel's 12 bytes equal bytes [0, 12) |
| PassLaws.AddPassSinglePixel | generation.cpp:94-96 | on a 1x1 grid an `Add` pass is a no-op |
| PassLaws.AddNormalizeCellBytes | generation.cpp:97-100 | an `AddNormalize` iteration at a pixel past the first 12 bytes hands `SetPixel` `Normalize(that pixel + v)`, which earlier stores to [0, 12) do not affect |
| PassLaws.AddNormalizePassOutcome | generation.cpp:97-100 | an `AddNormalize` pass whose last pixel lies past the first 12 bytes stores the normalized sum of that pixel and its light vector in bytes [0, 12), and nothing else changes |
| PassLaws.AddNormalizePassSinglePixel | generation.cpp:97-100 | on a 1x1 grid an `AddNormalize` pass stores the normalized sum of pixel (0, 0), as read, and its light vector, and nothing else changes |
| PassLaws.FirstThreePassesKeepTail | generation.cpp:112-114 | the first three passes of `GenerateNormalMap` change only bytes [0, 12) |
| PassLaws.FinalPass | generation.cpp:115 | the last pass, started from bytes that agree with the caller's from byte 12 on, stores the normalized sum of the caller's last pixel and the West vector |
| PassLaws.NormalMapOutcome | generation.cpp:106-117 | with matching shapes and the last pixel past the first 12 bytes, `GenerateNormalMap` leaves the normalized sum of the caller's last sink pixel and the West vector of `sources[3]`'s last pixel in bytes [0, 12) and changes nothing else; `sources[0]` to `sources[2]` have no influence |
| PassLaws.NormalMapEmptyGrid | generation.cpp:106-117 | on an empty grid with matching shapes, `GenerateNormalMap` succeeds and leaves the sink unchanged |
| PassLaws.NormalMapSinglePixel | generation.cpp:106-117 | on a 1x1 grid with matching shapes, `GenerateNormalMap` leaves in bytes [0, 12) the normalized sum of `sources[0]`'s North vector, each component rounded by its float store, and `sources[3]`'s West vector; nothing else changes |

## Left out

- Floating-point arithmetic is left out; values are exact reals. This covers:
  - the rounding of `/ 255.0f`, `* 2.0f - 1.0f`, `+` and the products in `Dot` and `Normalize`;
  - the NaN or infinity that `Normalize` produces for the zero vector.
- `sqrtf` is not modelled. `Normalize` scales by a parameter `invSqrt`.
- Vectors.NormalizeIsUnit: the unit length is stated only under the hypothesis that `invSqrt` is exact at `Dot(v)`, because the float result is only approximately of unit length.
- The IEEE-754 binary32 format and the platform's byte order are not modelled. `Pixels.Codec` stands for a float store and a float load.
- Copying a `float3` by value is taken to keep its 12 bytes. This holds for the bitwise moves of SSE and other IEEE platforms; a platform that quiets a signalling NaN while moving it is not modelled.
- Loading 12 bytes as a `float3` and storing it again is not modelled as a byte round trip. `Add` never does it, and `AddNormalize` stores a new value.
- Out-of-bounds reads and writes are not modelled; the source performs no checks. The model requires instead that every read and write stays inside its buffer (`PassSafe`, `GenerateSafe`, `SetPixel`'s length requirement).
- Aliasing is not modelled:
  - a sink buffer that overlaps a source buffer;
  - passes that share memory in any way other than the one sink.

  Sources are immutable sequences, separate from the sink's array.
- The row and column counts of `NormalSink` are not modelled; the struct declares none, and its rows and columns are those of the sources.
- `size_t` is treated as unbounded. `col * PixelSize` is computed in `size_t`, which cannot overflow for a `uint32_t` column on a 64-bit platform; the sum is still wrapped to 32 bits.
- Concurrency is not modelled; the code is single-threaded.
