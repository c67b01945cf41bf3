# Gaussian blur: three executors of one 3×3 kernel

This project models the core of a small image-processing repository. The
repository applies a fixed 3×3 Gaussian kernel, weights {1,2,1; 2,4,2; 1,2,1}/16,
to the interior pixels of an RGB image, in three Java versions:

- `GaussianBlur.applyGaussianBlur` (`g-b.java`) is the sequential reference.
  Nested loops run over the interior. For each pixel they accumulate the nine
  weighted neighbours of each channel, pack the three truncated sums into a
  24-bit RGB int and store it in a fresh result image.
- `ParallelGaussianBlur.applyGaussianBlur` (`g-b_multi-thread.java`) splits the
  rows into one band per worker. Each worker runs the same loop nest over its
  own band.
- `OpenCLGaussianBlur` (`g-b_gpu_opencl.java`) works on a flat buffer.
  `extractRGB` flattens the image into three bytes per pixel. The
  `gaussian_blur` kernel runs once per (x, y) and writes the three bytes of an
  interior pixel. `createImage` turns the buffer back into an image.

The Dafny modules follow those files:

- `Convolution` (`convolution.dfy`) holds what the three share: the pixel
  format (channel extraction, packing), the kernel table and the weighted sum
  over a 3×3 window.
- `SequentialBlur` (`sequential_blur.dfy`) is the reference blur. It is a
  method over `array2<int>` indexed [x, y], proved against the pure function
  `BlurredPixel`.
- `BandedBlur` (`banded_blur.dfy`) covers three things:
  - the band arithmetic;
  - the worker task, as written, with its skipped rows;
  - a corrected worker.
- `DeviceBlur` (`device_blur.dfy`) covers the flattening, the kernel over
  `array<Byte>`, the launch over every global id and the way back to an image.

Floating point is modelled as exact integer arithmetic. Every weight is k/16,
and every channel is an integer in 0..255. So every partial sum is an exact
multiple of 1/16 below 256, and the float sums equal the integer sums
`Σ k·c` divided by 16. The final `(int)` or `(uchar)` cast truncates, which is
Dafny's `/` on these non-negative values.

The thread pool and the device launch are modelled as running the workers (or
the kernel invocations) one after another in an arbitrary order (`order`).
The results are proved for every such order. No two workers, and no two
kernel invocations, write the same pixel.

What the code leaves where it does not compute:

- Border pixels are never written. The two CPU versions leave the fresh
  image's zero there. The device version leaves whatever bytes the output
  buffer held, which the model treats as unspecified.
- Device results. With the exact integer arithmetic above, every interior
  pixel the device version produces equals the sequential one.
- Band rows. The worker loop skips the first and last row of every band, not
  only the image's own border rows (see Findings). The sequential version
  writes every interior row, and the comment at `g-b_multi-thread.java:2`
  says the rows are divided among the threads. So the evident intent is
  that the bands together write every interior row. The model keeps the
  code as written and adds a corrected worker beside it.

## Model

| member | source | states |
|---|---|---|
| Convolution.ChannelOf | g-b.java:23-25 | `(rgb >> s) & 0xFF` of any Java int, negative ones included, is a channel value in 0..255 |
| Convolution.Pack | g-b.java:32 | packing three channel values gives a value below 2^24 whose shift-and-mask extraction gives back each of the three channels |
| Convolution.RepackKeepsColour | g-b.java:22-32 | extracting the three channels of any int and packing them again keeps exactly its low 24 bits: alpha is dropped, colour kept |
| Convolution.Kernel | g-b.java:6-10 | defines the `KERNEL` table in sixteenths, {1,2,1; 2,4,2; 1,2,1}, indexed [x-offset + 1][y-offset + 1]; the same table as g-b_multi-thread.java:13-17 and the kernel's own table at g-b_gpu_opencl.java:21-25 |
| Convolution.KernelNormalised | g-b.java:6-10 | the nine weights add up to 16 sixteenths, so the kernel is normalised |
| Convolution.KernelSymmetric | g-b.java:6-10 | the weight table is symmetric: `KERNEL[a][b] == KERNEL[b][a]` |
| Convolution.ColumnSum | g-b.java:21-29 | defines the inner loop's accumulation: the first n weighted samples of one column, added in the order j runs |
| Convolution.PartialSum | g-b.java:20-31 | defines the outer loop's accumulation: the first m whole columns, added in the order i runs |
| Convolution.WeightedSum | g-b.java:19-31 | defines the value of `r`, `g` or `b` after both loops, in sixteenths |
| Convolution.Conv | g-b.java:32 | defines the stored channel: the accumulated sum divided by 16 and truncated by the `(int)` cast |
| Convolution.ColumnSumBetween | g-b.java:27-29 | if the samples of a column lie between lo and hi, the weighted column sum lies between lo and hi times the column's weight |
| Convolution.PartialSumBetween | g-b.java:20-31 | if all samples lie between lo and hi, the accumulated sum lies between lo and hi times the weight of the columns summed |
| Convolution.ConvInRange | g-b.java:19-32 | for samples in 0..255 the weighted sum is at most 255·16, so the blurred channel is in 0..255 and no cast wraps |
| Convolution.ConvOfUniform | g-b.java:6-10 | nine equal samples v blur to v (identity on constant input) |
| Convolution.Transpose | g-b.java:27 | proof helper: the window with its offsets swapped, which lets `WeightedSumTransposed` state the [y-offset][x-offset] indexing of the table; its own contract says only that the result is 3×3 |
| Convolution.WeightedSumExpanded | g-b.java:20-29 | the loop-ordered accumulation equals the nine weighted samples written out |
| Convolution.WeightedSumTransposed | g-b.java:27 | because the table is symmetric, indexing it [y-offset][x-offset] gives the same sum as [x-offset][y-offset] |
| SequentialBlur.Interior | g-b.java:17-18 | defines the pixels the loops visit, 1 <= x < width - 1 and 1 <= y < height - 1; it is also the negation of the kernel's early-return test at g-b_gpu_opencl.java:19 |
| SequentialBlur.NeighboursInBounds | g-b.java:17-22 | every neighbour (x+i, y+j) read for an interior pixel lies inside the image, so no `getRGB` is out of bounds |
| SequentialBlur.Sample | g-b.java:22-25 | defines one sample of the window: the channel of `getRGB(x + i, y + j)` |
| SequentialBlur.WindowAt | g-b.java:20-25 | the 3×3 neighbourhood of an interior pixel holds channel values in 0..255 |
| SequentialBlur.WindowAtSample | g-b.java:22-25 | sample [i+1][j+1] of the window is the channel of the neighbour at offset (i, j) |
| SequentialBlur.BlurredPixel | g-b.java:19-32 | the stored value is below 2^24, and each of its channels is the truncated weighted sum of that channel's neighbourhood |
| SequentialBlur.BlurOfUniformNeighbourhood | g-b.java:19-32 | if all nine neighbours carry channel value v, the blurred pixel carries v in that channel |
| SequentialBlur.BlurOfUniformImage | g-b.java:12-37 | on an image whose pixels are all v, every blurred interior pixel is v without its alpha byte |
| SequentialBlur.SingleBrightCentre | g-b.java:19-32 | a 3×3 image whose only red is 255 at the centre blurs to red 63 there (255·4/16 truncated) |
| SequentialBlur.SequentialOutput | g-b.java:15-33 | defines the sequential result at (x, y): the blurred pixel inside, the fresh image's zero on the border |
| SequentialBlur.BlurPixel | g-b.java:19-33 | the two inner loops with their float accumulators compute exactly `BlurredPixel` |
| SequentialBlur.BlurRows | g-b.java:17-35 | the interior loop nest writes the blurred value to every pixel of its rectangle and leaves every other pixel of the result as it was |
| SequentialBlur.ApplyGaussianBlur | g-b.java:12-37 | a fresh image of the same size whose interior holds the blurred pixels and whose border is zero; an image of width or height at most 2 comes back all zero |
| BandedBlur.BandStart | g-b_multi-thread.java:31 | defines the first row of worker t's band: `(height / THREADS) * threadID` |
| BandedBlur.BandEnd | g-b_multi-thread.java:31-32 | a band never ends before it starts nor after the last row |
| BandedBlur.BandsAdjacent | g-b_multi-thread.java:31-32 | each band ends where the next one starts |
| BandedBlur.BandsOrdered | g-b_multi-thread.java:31-32 | an earlier band ends no later than a later one starts, so bands are pairwise disjoint |
| BandedBlur.BandOf | g-b_multi-thread.java:31-32 | every row lies in the band of some worker: the union of the bands is all the rows |
| BandedBlur.BandsPartitionRows | g-b_multi-thread.java:31-32 | row y lies in band t exactly when t is the band of y: every row is covered exactly once |
| BandedBlur.FewRowsLastBandTakesAll | g-b_multi-thread.java:31-32 | with fewer rows than workers every band but the last is empty and the last band is all the rows |
| BandedBlur.WrittenByWorker | g-b_multi-thread.java:34-35 | defines the pixels worker t writes: columns 1 .. width-2 and rows startY+1 .. endY-2 of its band |
| BandedBlur.WorkerWritesInterior | g-b_multi-thread.java:34-39 | every pixel a worker writes is interior, so all of its neighbour reads are in bounds |
| BandedBlur.WorkersWriteDisjointPixels | g-b_multi-thread.java:34-35 | two workers that write the same pixel are the same worker |
| BandedBlur.WrittenByOwner | g-b_multi-thread.java:34-35 | a worker writes a pixel exactly when the pixel is written at all and its row is in the worker's band |
| BandedBlur.BandEdgeRowsUnwritten | g-b_multi-thread.java:35 | the first and the last row of every non-empty band are written by no worker |
| BandedBlur.SingleWorkerWritesInterior | g-b_multi-thread.java:31-35 | with one worker the written pixels are exactly the interior |
| BandedBlur.BandedOutput | g-b_multi-thread.java:24-50 | defines the banded result at (x, y): the blurred pixel where the owning worker writes, the fresh image's zero elsewhere |
| BandedBlur.BandedAgreesWithSequential | g-b_multi-thread.java:36-50 | every pixel the banded blur writes gets the sequential blur's value, and with one worker the two images are equal |
| BandedBlur.IsSchedule | g-b_multi-thread.java:28-30 | defines what the pool does with the submitted tasks: every worker 0..N-1 runs exactly once, in some order |
| BandedBlur.SubmissionOrder | g-b_multi-thread.java:28-30 | submitting workers 0..N-1 runs every worker exactly once |
| BandedBlur.RunWorker | g-b_multi-thread.java:30-53 | a worker writes the blurred value to exactly the pixels strictly inside its band's rows and leaves the rest of the result unchanged |
| BandedBlur.ApplyGaussianBlurBanded | g-b_multi-thread.java:21-59 | for every order of running the workers, the result is the banded output: blurred where some worker writes, zero elsewhere |
| BandedBlur.CorrectedWorkerWritesItsInterior | g-b_multi-thread.java:31-35 | a worker whose rows are clipped to the interior writes exactly the interior pixels of its own band |
| BandedBlur.RunCorrectedWorker | g-b_multi-thread.java:30-53 | the corrected worker writes the blurred value to exactly its clipped rows and leaves the rest unchanged |
| BandedBlur.ApplyGaussianBlurBandedCorrected | g-b_multi-thread.java:21-59 | with corrected bands, every order of running the workers gives the sequential blur's image |
| BandedBlur.SkippedPixelDiffers | g-b_multi-thread.java:35 | an interior pixel no worker writes stays zero in the banded image, while on a uniform image the sequential image holds the colour there |
| BandedBlur.BandBoundaryRowLost | g-b_multi-thread.java:35 | on a 3×6 image with two workers, interior pixels (1, 2) and (1, 3) are written by no worker |
| BandedBlur.SecondAndThirdRowsOwned | g-b_multi-thread.java:31-32 | of six rows split between two workers, row 2 is the last row of band 0 and row 3 the first row of band 1 |
| DeviceBlur.Unsigned | g-b_gpu_opencl.java:120 | `b & 0xFF` of a Java byte, and the kernel's `uchar` view of it, is in 0..255 |
| DeviceBlur.ToByte | g-b_gpu_opencl.java:107-109 | `(byte) v` keeps the low eight bits of v: read back unsigned it is `v mod 256` |
| DeviceBlur.ByteRoundTrip | g-b_gpu_opencl.java:107-120 | storing a channel value with `(byte)` and reading it with `& 0xFF` is the identity on 0..255, and the other way round on bytes |
| DeviceBlur.ByteIndex | g-b_gpu_opencl.java:106 | defines where channel c of pixel (x, y) lives in the flat buffer: `(y * width + x) * 3 + c`, the offset also used by the kernel at lines 29 and 35 |
| DeviceBlur.PixelNumberBelow | g-b_gpu_opencl.java:101-106 | the row-major pixel number of an in-image pixel is below `width * height` |
| DeviceBlur.ByteIndexInBounds | g-b_gpu_opencl.java:101-109 | every channel offset `(y*width+x)*3 + c` of an in-image pixel lies inside the `width*height*3` bytes allocated |
| DeviceBlur.PixelNumberInjective | g-b_gpu_opencl.java:106 | distinct pixels have distinct row-major pixel numbers |
| DeviceBlur.ByteIndexOutsideOtherPixel | g-b_gpu_opencl.java:35-38 | no byte of one pixel falls among the three bytes of another, so kernel invocations for distinct pixels write disjoint bytes |
| DeviceBlur.ByteIndexInjective | g-b_gpu_opencl.java:106-109 | distinct (pixel, channel) pairs have distinct offsets |
| DeviceBlur.IsFlattening | g-b_gpu_opencl.java:101-109 | defines the buffer `extractRGB` produces: `width*height*3` bytes, each channel offset holding `(byte)` of that channel |
| DeviceBlur.ExtractRgb | g-b_gpu_opencl.java:98-113 | a fresh buffer of `width*height*3` bytes in which the byte at each pixel's channel offset is that channel as a Java byte |
| DeviceBlur.PixelFrom | g-b_gpu_opencl.java:119-121 | the colour packed from a pixel's three bytes is below 2^24 |
| DeviceBlur.PackedAt | g-b_gpu_opencl.java:120 | the three bytes at `idx`, masked with `& 0xFF` and packed, give a colour whose red, green and blue are those three unsigned bytes |
| DeviceBlur.PixelFromChannels | g-b_gpu_opencl.java:119-121 | each channel of the packed colour is the unsigned value of that channel's byte |
| DeviceBlur.FlattenRoundTrip | g-b_gpu_opencl.java:98-125 | `createImage(extractRGB(img))` gives every pixel back its RGB value (the original's low 24 bits) |
| DeviceBlur.ReadPixel | g-b_gpu_opencl.java:119-120 | the inner loop body of `createImage` computes the packed colour of the pixel's bytes |
| DeviceBlur.FillRow | g-b_gpu_opencl.java:118-122 | the inner loop sets every pixel of its row to its packed colour and changes no other row |
| DeviceBlur.CreateImage | g-b_gpu_opencl.java:115-125 | a fresh width × height image in which every pixel holds the colour packed from its three bytes |
| DeviceBlur.FlatSample | g-b_gpu_opencl.java:29-32 | defines one sample the kernel reads: the unsigned byte at `((y + j) * width + (x + i)) * 3 + c` |
| DeviceBlur.FlatWindow | g-b_gpu_opencl.java:27-32 | the neighbourhood the kernel reads from the flat buffer holds channel values in 0..255 |
| DeviceBlur.FlatWindowSample | g-b_gpu_opencl.java:29-32 | every read `((y+j)*width+(x+i))*3 + c` of an interior invocation is inside the buffer, and sample [i+1][j+1] is the unsigned byte there |
| DeviceBlur.FlatWindowOfFlattening | g-b_gpu_opencl.java:29-32 | on a flattened image the kernel sums the same nine samples as the sequential blur |
| DeviceBlur.KernelByte | g-b_gpu_opencl.java:35-38 | the byte an interior invocation stores reads back as the blurred channel: the `(uchar)` cast never wraps |
| DeviceBlur.KernelSums | g-b_gpu_opencl.java:26-34 | the kernel's two loops compute the weighted sum of each channel's flat neighbourhood |
| DeviceBlur.GaussianBlurKernel | g-b_gpu_opencl.java:16-39 | a border invocation writes nothing; an interior one writes its pixel's three bytes with the blurred channels and no other byte |
| DeviceBlur.IsLaunch | g-b_gpu_opencl.java:75-76 | defines the launch over the global work size {width, height}: every global id (x, y) in [0, width) × [0, height) exactly once, in some order |
| DeviceBlur.RunKernel | g-b_gpu_opencl.java:75-76 | launching the kernel for every global id, in any order, leaves every interior pixel's bytes blurred and every border pixel's bytes as they were |
| DeviceBlur.BlurOnDevice | g-b_gpu_opencl.java:46-84 | flatten, launch, read back and unflatten: every interior pixel equals the sequential blur's pixel |
| DeviceBlur.DevicePixel | g-b_gpu_opencl.java:35-38 | a pixel whose three output bytes are the kernel's bytes reads back as the sequential blur's pixel |

## Left out

- The `main` methods of the three files. Image file reading and writing and the console messages are I/O.
- The OpenCL host code (`g-b_gpu_opencl.java:48-93`): platforms, devices, context, queue, buffers, program build, argument setting, enqueue, read-back and release. These are foreign JOCL calls. The launch is modelled as one kernel call per global id, in any order, and the read-back as using the output array directly.
- Failures of the device host calls. `CL.setExceptionsEnabled( true )` (`g-b_gpu_opencl.java:49`) makes a failing JOCL call throw a `CLException`; these exceptions are left out with the host code.
- Images of width or height 0 cannot be built as a `BufferedImage`, so the code never receives one. The model also accepts them: every method is defined for them and returns an empty image.
- `ExecutorService`, `submit`, `shutdown` and the busy-wait on `isTerminated` (`g-b_multi-thread.java:26,56-57`). This is concurrency. The workers run one after another in an arbitrary order, which is sound because their writes are disjoint (`WorkersWriteDisjointPixels`).
- `Runtime.availableProcessors()`: the worker count is a parameter, at least 1.
- IEEE float arithmetic. It is replaced by exact integer sums in sixteenths, for the exactness reason given above.
- Java's 32-bit `int` overflow of `width * height * 3` and `(y * width + x) * 3`. The model computes these with unbounded integers and no `requires` excludes large images, so for an image whose byte count passes 2^31 - 1 the model still allocates and indexes correctly, where the code would throw `NegativeArraySizeException` or index the wrong byte.
- The alpha byte. `getRGB` values are arbitrary ints, and the model shows that only their low 24 bits reach the result.
- The `TYPE_INT_RGB` storage of the result images. `setRGB` stores a value below 2^24 as it is, and the model keeps the written int.
- `g-b_parallel.cpp` is not part of this model. Its arithmetic goes through OpenCV vector types whose wrapping and saturating behaviour is not in the repository, and its parallelism is OpenMP.
- `g-b.cpp` and `g-b.py` are not part of this model. They only call a library Gaussian blur.
- BlurOnDevice: states nothing about border pixels. The code leaves them holding whatever bytes the device output buffer held, which is unspecified.
- ApplyGaussianBlurBanded: states the result through `BandedOutput` and does not compare it with the sequential blur for more than one worker. For more than one worker the two differ (see Findings).

## Findings

| source | as written | input that shows it | evidently intended | confidence | as-written member | corrected member |
|---|---|---|---|---|---|---|
| g-b_multi-thread.java:35 | each worker loops `y = startY + 1 .. endY - 2`, so it skips the first and the last row of its band even where that row is inside the image | a 3×6 image of uniform colour 0x808080 with two workers: band 0 is rows 0..2 and writes row 1, band 1 is rows 3..5 and writes row 4, so interior pixels (1, 2) and (1, 3) stay 0 while the sequential blur gives 0x808080 | each worker writes every interior row of its band, rows `max(startY, 1) .. min(endY, height - 1) - 1`, so the banded image equals the sequential one | high; not executed | BandedBlur.BandBoundaryRowLost | BandedBlur.ApplyGaussianBlurBandedCorrected |
