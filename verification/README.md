# Parallel 3×3 image convolution — Dafny model

This project models the convolution engine of `image_pThreads.c`: a program that
filters a raster image with one of six fixed 3×3 kernels (edge, sharpen, box blur,
gaussian, emboss, identity) and spreads the work over one POSIX thread per CPU core.

What is modelled:

- **The kernel table and its lookup** (`Kernels`): the six matrices of `algorithms`
  as exact reals, and `GetKernelType`, which maps a filter name to its table entry
  and every unknown name to the identity kernel.
- **The per-pixel evaluator** (`PixelEval`): `getPixelValue` clamps each of the
  nine neighbour coordinates into the image (edge replication), forms the
  kernel-weighted sum of the nine samples on one channel, clamps the sum to
  `[0, 255]` and truncates it to a byte. `Convolved` is the whole filtered image
  this evaluator defines, position by position.
- **The row-band partition** (`Bands`): the loop of `convolute` that deals
  `height` rows to `numThreads` workers, `height / numThreads` each and one more
  to each of the first `height % numThreads`, as contiguous half-open bands. It is
  modelled as a loop filling a freshly allocated array of thread records, as the
  source does.
- **The band worker, the serial fallback and the scheduler**
  (`ParallelConvolution`): the worker and the fallback are triple nested loops
  that write evaluator results into the destination array in place. The threaded
  path is modelled by its effect: all workers run to completion one after another,
  in an arbitrary order given as a parameter. Both paths are proved to leave the
  destination equal to `Convolved`, so they agree byte for byte, whatever the order.

Assumptions and modelling choices:

- The `Index` macro is defined in `image.h`, which is not part of this model. It
  is taken to be `Index(x, y, w, bit, bpp) = y*w*bpp + x*bpp + bit`. This agrees
  with the row span `width*bpp` used by the evaluator (line 37), with the buffer
  size `width*bpp*height` (line 209) and with the PNG stride (line 214).
- The C `double` kernel weights and sums are exact `real`s. The cast of the
  clamped sum to `uint8_t` is `Floor`. On `[0, 255]` it agrees with C's truncation
  toward zero.
- The source image is an immutable value (`Image`); the destination buffer is an
  `array<Byte>`. So the worker cannot change the source, and source and
  destination never alias.
- The number of worker threads (the online core count from `sysconf`) is a
  parameter `numThreads >= 1`. Whether the thread handles and records could be
  allocated is a parameter `allocOk`; when it is false the serial fallback runs.
- The source does not validate its input. It trusts the image decoder for the
  dimensions and buffer size, and `main` for the destination buffer. The model
  states this trust as the precondition `src.Valid()` (the buffer holds
  `width*height*bpp` samples) and `dest.Length == |src.data|`. A design that
  rejects a mismatched or invalid image with an error is not what the code does.
  The code also does not drain running workers when a later `pthread_create`
  fails: it calls `exit(-1)` at once. The model follows the code and leaves that
  path out (see below).

## Model

| member | source | states |
|---|---|---|
| `ImageTypes.IndexInBounds` | image_pThreads.c:44-53 | every in-image coordinate and channel addresses a sample inside the `width*height*bpp` buffer |
| `ImageTypes.IndexDecompose` | image_pThreads.c:80-86 | the row, column and channel read back from `Index(x, y, w, bit, bpp)` are `y`, `x` and `bit`: distinct coordinates never share a position |
| `ImageTypes.IndexCompose` | image_pThreads.c:109-112 | every buffer position is `Index` of the in-range coordinates read from it, so the sweep over rows, columns and channels reaches every position |
| `ImageTypes.RowOfInRange` | image_pThreads.c:109-112 | every buffer position belongs to a row in `[0, height)` |
| `ImageTypes.RowRange` | image_pThreads.c:80-86 | a position lies in rows `[lo, hi)` exactly when it lies in `[lo*width*bpp, hi*width*bpp)` |
| `ImageTypes.NextPixel` | image_pThreads.c:81-82 | after the last channel of pixel `x` the next position is the first channel of pixel `x + 1` |
| `ImageTypes.NextRow` | image_pThreads.c:80-81 | after the last pixel of row `y` the next position is the first pixel of row `y + 1` |
| `Kernels.GetKernelType` | image_pThreads.c:176-183 | "edge", "sharpen", "blur", "gauss" and "emboss" select their own filter, each only for that name; every other string selects the identity filter |
| `Kernels.IdentityEntry` | image_pThreads.c:18-25 | the last table entry is the identity kernel (a single 1 at the centre), and no other entry is |
| `Kernels.KernelSums` | image_pThreads.c:18-25 | the edge kernel's weights sum to 0; every other kernel's weights sum to 1 |
| `PixelEval.NeighboursInBounds` | image_pThreads.c:39-43 | for `0 <= c < limit` the clamped neighbours `mx`/`px` (and `my`/`py`) lie in `[0, limit-1]`, at most one step from `c`, and are `c-1`/`c+1` wherever those are inside |
| `PixelEval.NeighbourReadsInBounds` | image_pThreads.c:39-53 | all nine samples read for an in-image pixel lie inside the source buffer |
| `PixelEval.ClampToByte` | image_pThreads.c:55-59 | a sum above 255 gives 255, below 0 gives 0, and otherwise the greatest byte not above the sum |
| `PixelEval.GetPixelValue` | image_pThreads.c:35-60 | the result is a byte; it is 255 when the weighted neighbourhood sum exceeds 255, 0 when it is negative, and the sum truncated otherwise |
| `PixelEval.ConvolvedAt` | image_pThreads.c:84-86 | the filtered image holds, at the position of every pixel and channel, the evaluator's value for that pixel and channel |
| `PixelEval.IdentityPixel` | image_pThreads.c:44-53 | with the identity kernel the evaluator returns the source sample at the same pixel and channel |
| `PixelEval.IdentityCopies` | image_pThreads.c:173-175 | filtering with the identity kernel reproduces the source image exactly |
| `PixelEval.FlatSum` | image_pThreads.c:39-53 | on an image whose samples are all `v`, the weighted sum at every pixel, border included, is `v` times the sum of the weights |
| `PixelEval.FlatFieldInvariant` | image_pThreads.c:35-60 | a kernel whose weights sum to 1 leaves a flat image unchanged, border pixels included |
| `PixelEval.SinglePixel` | image_pThreads.c:39-59 | in a 1×1 image every neighbour is the pixel itself: the result is the clamped product of its sample and the sum of the weights |
| `Bands.PartitionRows` | image_pThreads.c:121-143 | yields `numThreads` bands, band 0 starting at row 0, each starting where the previous ends, the last ending at `height`; the first `height % numThreads` have `height / numThreads + 1` rows, the rest `height / numThreads`, so any two sizes differ by at most 1 |
| `Bands.BandStartClosedForm` | image_pThreads.c:133-143 | band `t` starts at `t*(height/numThreads) + min(t, height%numThreads)` |
| `Bands.BandStartEnd` | image_pThreads.c:122-143 | the rows dealt out add up to exactly `height` |
| `Bands.PartitionOrdered` | image_pThreads.c:133-143 | in a partition each band ends no later than every later band starts |
| `Bands.PartitionInRange` | image_pThreads.c:133-143 | every band of a partition lies inside `[0, height]` |
| `Bands.PartitionDisjoint` | image_pThreads.c:127-143 | no row belongs to two bands, so no two workers write the same row |
| `Bands.PartitionCovers` | image_pThreads.c:124-143 | every row of `[0, height)` belongs to some band |
| `ParallelConvolution.ConvoluteThreadWorker` | image_pThreads.c:75-91 | afterwards every destination position in the band's rows holds the filtered value, and every other position is unchanged |
| `ParallelConvolution.SerialConvolute` | image_pThreads.c:109-115 | afterwards the destination is exactly the filtered image |
| `ParallelConvolution.WrittenStep` | image_pThreads.c:146-150 | running one more worker adds exactly its band's positions to those already written |
| `ParallelConvolution.AllWritten` | image_pThreads.c:153-156 | once the workers of all bands have run, in whatever order, every position has been written |
| `ParallelConvolution.RunWorkers` | image_pThreads.c:127-156 | running the workers of a partition to completion in any order leaves the destination exactly the filtered image, the same as the serial sweep |
| `ParallelConvolution.Convolute` | image_pThreads.c:95-161 | on either path (threads, or the serial fallback when allocation fails) the destination ends up exactly the filtered image |

## Left out

- Thread creation and joining (`pthread_create`, `pthread_join`): the concurrency itself is not modelled. Its effect is modelled as the workers running one after another in an arbitrary order, which is sound because each worker writes only its own band (`PartitionDisjoint`) and reads only the unchanging source.
- The `exit(-1)` when `pthread_create` fails, and all `printf`/`fprintf` diagnostics: process termination and output are outside the model.
- The core count query `sysconf(_SC_NPROCESSORS_ONLN)`: it is the parameter `numThreads`, required to be at least 1. The code does not guard against a result of 0 or -1; with 0 the division `height / num_threads` would fail.
- `malloc`/`free` of the thread handles and records: only the outcome of the allocation is modelled, as the parameter `allocOk`.
- Image decoding and encoding through stb, `main`, `Usage`, the timing output and the special message for one file name: input/output and command-line plumbing.
- IEEE-754 `double` rounding of the weighted sum and of the weights 1/9 and 1/16: the model computes with exact reals, so it does not claim bit-exact agreement with the floating-point result.
- The body of the `Index` macro (image.h is not part of this model): the row-major formula above is an assumption.
- The 32-bit `int` range of coordinates and buffer positions: integers are unbounded, so overflow of `Index` on huge images is not modelled.
- The thread record's references to the source, the destination and its copy of the kernel: they are the same for every worker, so the worker takes them as parameters and `ThreadData` keeps only the row range.
