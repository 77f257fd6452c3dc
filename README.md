# Median filter kernel

A Dafny model of the denoising kernel in the Hybridizer median-filter sample.
The kernel takes a 16-bit greyscale image stored row-major (`input[y * width + x]`)
and handles each interior pixel `(i, j)` in three steps:

- it copies the 7x7 neighbourhood (radius `window = 3`, side `windowCount = 7`) into a 49-slot buffer;
- it sorts the buffer with `Bitonic.Sort`;
- it writes the middle slot (index 24) to `output[j * width + i]`.

Pixels within 3 of the border are never written.

The model has three modules:

- `OrderStatistic` (`order_statistic.dfy`): what "the median" means. `IsMedian(s, v)` says that at most `|s|/2`
  samples lie strictly below `v` and at most `|s|/2` lie strictly above it. The lemmas show three things:
  - for an odd number of samples exactly one value satisfies it (`MedianExists` and `MedianUnique`);
  - that value is the middle element of every sorted arrangement;
  - it does not depend on the order the samples were gathered in.
- `Bitonic` (`bitonic.dfy`): the 16-bit sample type and the in-place range sort, proved against its contract.
- `Filter` (`filter.dfy`): the index arithmetic, the neighbourhood, and the specification `FilterSpec` of the
  whole output image. It also holds `PixelMedian`, the per-pixel body (gather, sort, take the middle), and
  the kernel `ParForGPU`. The index maps and the specification take any radius `r`; the kernel uses `Window = 3`,
  as the source does.

`Parallel2D.For` runs the per-pixel body over the interior in parallel. Each pixel reads only `input` and
writes only its own output cell, so the model uses a sequential row-major sweep.
`FilterSpecDeterministic` shows that the specification fixes the output completely, so any order of the
pixels gives the same image.

## Model

| member | source | states |
|---|---|---|
| `Bitonic.Sort` | Jupyter/Labs/04_MedianFilter/05-dice-gpu/solution/02-dice-gpu-solution.cs:20-23 | afterwards `data[from..to)` is ascending and holds the same multiset of samples as before; `data[..from)` and `data[to..)` are unchanged |
| `Filter.BufferIndex` | Jupyter/Labs/04_MedianFilter/05-dice-gpu/solution/02-dice-gpu-solution.cs:36 | for offsets `k, p` in `[-r, r]`, the slot `(k + r) * (2r + 1) + p + r` lies in `[0, (2r+1)^2)` |
| `Filter.BufferIndexInverse` | Jupyter/Labs/04_MedianFilter/05-dice-gpu/solution/02-dice-gpu-solution.cs:32-36 | the slot gives back its offsets (row by quotient, column by remainder), so distinct offset pairs go to distinct slots |
| `Filter.BufferIndexOnto` | Jupyter/Labs/04_MedianFilter/05-dice-gpu/solution/02-dice-gpu-solution.cs:32-36 | every slot in `[0, (2r+1)^2)` is the slot of some offset pair in range; with the inverse, each slot is written exactly once |
| `Filter.PixelIndex` | Jupyter/Labs/04_MedianFilter/05-dice-gpu/solution/02-dice-gpu-solution.cs:37 | for a pixel inside the image, `y * width + x` lies in `[0, width * height)`, so no read goes out of bounds |
| `Filter.PixelIndexInverse` | Jupyter/Labs/04_MedianFilter/05-dice-gpu/solution/02-dice-gpu-solution.cs:37 | the linear index gives back the pixel, so distinct pixels have distinct indices |
| `Filter.PixelIndexOnto` | Jupyter/Labs/04_MedianFilter/05-dice-gpu/solution/02-dice-gpu-solution.cs:43 | every index of a `width * height` buffer is the linear index of the pixel `(n % width, n / width)` |
| `Filter.WindowSizeOdd` | Jupyter/Labs/04_MedianFilter/05-dice-gpu/solution/02-dice-gpu-solution.cs:42-43 | the buffer holds an odd number of samples, `(2r+1)^2`, so slot `(2r+1)^2 / 2` is the unique middle |
| `Filter.NeighbourhoodSlot` | Jupyter/Labs/04_MedianFilter/05-dice-gpu/solution/02-dice-gpu-solution.cs:32-40 | slot `(k + r) * (2r + 1) + p + r` of the neighbourhood holds `input[(j + k) * width + (i + p)]` |
| `Filter.PixelMedian` | Jupyter/Labs/04_MedianFilter/05-dice-gpu/solution/02-dice-gpu-solution.cs:31-43 | the value taken from slot 24 of the sorted buffer is the median of the 49 neighbourhood samples: at most 24 lie below it and at most 24 lie above it (the loop invariants in the body prove that after the nested `k`/`p` loops the buffer equals the neighbourhood slot for slot) |
| `Filter.ParForGPU` | Jupyter/Labs/04_MedianFilter/05-dice-gpu/solution/02-dice-gpu-solution.cs:27-45 | the output satisfies `FilterSpec`: every interior pixel holds its neighbourhood's median; every border pixel keeps its prior value; if `width <= 6` or `height <= 6` the output is entirely unchanged; `input` is unchanged |
| `Filter.FilterSpecDeterministic` | Jupyter/Labs/04_MedianFilter/05-dice-gpu/solution/02-dice-gpu-solution.cs:29-44 | two outputs that both satisfy the specification for the same input and prior output are equal, so the result does not depend on the order of the parallel iterations |
| `Filter.FilterConstantNeighbourhood` | Jupyter/Labs/04_MedianFilter/05-dice-gpu/solution/02-dice-gpu-solution.cs:38-43 | if every sample in a pixel's neighbourhood equals `c`, that pixel's output is `c` |
| `Filter.FilterConstantImage` | Jupyter/Labs/04_MedianFilter/05-dice-gpu/solution/02-dice-gpu-solution.cs:29-44 | a constant image `c` gives `c` at every interior pixel |
| `Filter.FilterRadiusOneRamp` | Jupyter/Labs/04_MedianFilter/05-dice-gpu/solution/02-dice-gpu-solution.cs:29-43 | with radius 1 instead of 3, the ramp image `1..49` on 7x7 gives pixel `(3, 3)` the neighbourhood 17, 18, 19, 24, 25, 26, 31, 32, 33, and its output is 25 |
| `Filter.FilterSingleInteriorPixel` | Jupyter/Labs/04_MedianFilter/05-dice-gpu/solution/02-dice-gpu-solution.cs:29-43 | a 7x7 image has exactly one interior pixel, `(3, 3)`; for samples `1..49` that pixel becomes 25 and the other 48 cells keep their prior values |
| `OrderStatistic.CountsPermutation` | Jupyter/Labs/04_MedianFilter/05-dice-gpu/solution/02-dice-gpu-solution.cs:42 | the counts of samples below and above a value depend only on the multiset of samples, so sorting does not change them |
| `OrderStatistic.MedianOrderIndependent` | Jupyter/Labs/04_MedianFilter/05-dice-gpu/solution/02-dice-gpu-solution.cs:32-42 | two arrangements of the same samples have the same medians (both directions) |
| `OrderStatistic.SortedMiddleIsMedian` | Jupyter/Labs/04_MedianFilter/05-dice-gpu/solution/02-dice-gpu-solution.cs:42-43 | the element at index `|s| / 2` of a sorted non-empty sequence has at most `|s| / 2` samples below it and at most `|s| / 2` above it |
| `OrderStatistic.MedianUnique` | Jupyter/Labs/04_MedianFilter/05-dice-gpu/solution/02-dice-gpu-solution.cs:43 | an odd number of samples has at most one median: two medians are equal |
| `OrderStatistic.MedianExists` | Jupyter/Labs/04_MedianFilter/05-dice-gpu/solution/02-dice-gpu-solution.cs:42-43 | every odd-length sample has a median (the middle of a sorted arrangement built by insertion); with `MedianUnique`, exactly one |
| `OrderStatistic.MedianIsSortedMiddle` | Jupyter/Labs/04_MedianFilter/05-dice-gpu/solution/02-dice-gpu-solution.cs:42-43 | for an odd number of samples, `v` is a median if and only if it is the middle element of a sorted arrangement |
| `OrderStatistic.MedianIsSample` | Jupyter/Labs/04_MedianFilter/05-dice-gpu/solution/02-dice-gpu-solution.cs:43 | the median of an odd number of samples is one of the samples |
| `OrderStatistic.ConstantMedian` | Jupyter/Labs/04_MedianFilter/05-dice-gpu/solution/02-dice-gpu-solution.cs:38-43 | when all samples equal `c`, `c` is the median and no other value is |

## Left out

- `Program.Main` (image load and save, timing, console output, the CUDA runner, its wrapper and the grid and
  block sizes) is plumbing around foreign library calls. The vector-addition sample is not part of this
  model either: it holds only floating-point addition inside a parallel loop, plus GPU dispatch.
- `Parallel2D.For` is modelled as a sequential row-major sweep. Concurrent scheduling is not modelled.
  Order independence is stated instead by `FilterSpecDeterministic`.
- `Bitonic.Sort` is replaced on the accelerator by a bitonic sorting network. The model states only the
  sort's contract and proves it of an insertion sort; the network is not modelled.
- `StackArray<ushort>` is a plain 49-element array that is freshly allocated for each pixel.
- When the kernel runs on the host, invalid arguments raise .NET exceptions: an out-of-range `from`/`to` in `Array.Sort`, or
  an image buffer shorter than `width * height`. The model instead requires the arguments that the only
  caller passes: `0 <= from <= to <= data.Length`, and input and output of length `width * height`.
- `Filter.ParForGPU` requires `output != input`. With aliased buffers the parallel source would race with
  its own writes, and `Main` never passes the same array twice.
- 32-bit `int` overflow in the index arithmetic is not modelled. Every index computed is below
  `width * height`, which is at most the length of a .NET array, so no computation wraps.
- The border band is left at its prior value, as in the source. Clamping or mirroring the border is not
  part of the source.
- The kernel is fixed at radius 3, as in the source. The index maps, `FilterSpec` and its lemmas hold for
  any radius; `FilterRadiusOneRamp` states a radius-1 case of the specification, which the kernel itself
  cannot run.
