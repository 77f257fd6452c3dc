/**
 The median-filter kernel. For every interior pixel `(i, j)` of a row-major
 16-bit greyscale image it gathers the 7x7 neighbourhood into a 49-slot
 buffer, sorts the buffer and writes its middle element to the output image.
 Pixels closer than the window radius to the border are not written.

 The index arithmetic and the specification are stated for any radius `r`;
 the kernel itself uses the fixed radius `Window` = 3.
 */
module Filter {
  import opened OrderStatistic
  import opened Bitonic

  /** Side of the square neighbourhood of radius `r`. */
  function Side(r: nat): nat {
    r + r + 1
  }

  /** Radius of the neighbourhood. */
  const Window := 3
  /** Side of the square neighbourhood. */
  const WindowCount := Side(Window)

  // ---------------------------------------------------------------------------
  // Index arithmetic
  // ---------------------------------------------------------------------------

  /** `(x, y)` addresses a pixel of a `width` x `height` image. */
  predicate InImage(width: int, height: int, x: int, y: int) {
    0 <= x < width && 0 <= y < height
  }

  /** The whole neighbourhood of radius `r` around `(x, y)` lies inside the image. */
  predicate IsInterior(r: nat, width: int, height: int, x: int, y: int) {
    r <= x < width - r && r <= y < height - r
  }

  /** `d` is a row or column offset within radius `r`. */
  predicate IsOffset(r: nat, d: int) {
    0 <= d + r && d <= r
  }

  lemma MulMonotonic(x: int, y: int, z: int)
    requires x <= y && 0 <= z
    ensures x * z <= y * z
  {
  }

  /** A quotient and a remainder below the divisor are determined by the number. */
  lemma QuotientRemainderUnique(d: int, a: int, b: int, c: int, e: int)
    requires 0 < d && 0 <= b < d && 0 <= e < d
    requires a * d + b == c * d + e
    ensures a == c && b == e
  {
    if a < c {
      MulMonotonic(a + 1, c, d);
    } else if c < a {
      MulMonotonic(c + 1, a, d);
    }
  }

  /** Row-major linear index of pixel `(x, y)`; it always addresses the image buffer. */
  function PixelIndex(width: int, height: int, x: int, y: int): (n: int)
    requires InImage(width, height, x, y)
    ensures 0 <= n < width * height
  {
    MulMonotonic(y, height - 1, width);
    y * width + x
  }

  /** The linear index gives the pixel back: column by remainder, row by quotient. */
  lemma {:induction false} PixelIndexInverse(width: int, height: int, x: int, y: int)
    requires InImage(width, height, x, y)
    ensures PixelIndex(width, height, x, y) % width == x
    ensures PixelIndex(width, height, x, y) / width == y
  {
    var n := PixelIndex(width, height, x, y);
    QuotientRemainderUnique(width, n / width, n % width, y, x);
  }

  /** Every index of the image buffer is the linear index of exactly one pixel. */
  lemma {:induction false} PixelIndexOnto(width: int, height: int, n: int)
    requires 0 < width && 0 <= n < width * height
    ensures InImage(width, height, n % width, n / width)
    ensures PixelIndex(width, height, n % width, n / width) == n
  {
    if height <= n / width {
      MulMonotonic(height, n / width, width);
    }
  }

  /** Buffer slot receiving the sample at row offset `k`, column offset `p`. */
  function BufferIndex(r: nat, k: int, p: int): (n: int)
    requires IsOffset(r, k) && IsOffset(r, p)
    ensures 0 <= n < Side(r) * Side(r)
  {
    MulMonotonic(k + r, r + r, Side(r));
    (k + r) * Side(r) + p + r
  }

  /** Row offset of the sample held in buffer slot `n`. */
  function SlotRow(r: nat, n: int): int {
    n / Side(r) - r
  }

  /** Column offset of the sample held in buffer slot `n`. */
  function SlotColumn(r: nat, n: int): int {
    n % Side(r) - r
  }

  /** Distinct offsets go to distinct slots: the slot gives the offsets back. */
  lemma {:induction false} BufferIndexInverse(r: nat, k: int, p: int)
    requires IsOffset(r, k) && IsOffset(r, p)
    ensures SlotRow(r, BufferIndex(r, k, p)) == k
    ensures SlotColumn(r, BufferIndex(r, k, p)) == p
  {
    var n := BufferIndex(r, k, p);
    QuotientRemainderUnique(Side(r), n / Side(r), n % Side(r), k + r, p + r);
  }

  /** Every slot of the buffer receives the sample of some offset pair. */
  lemma {:induction false} BufferIndexOnto(r: nat, n: int)
    requires 0 <= n < Side(r) * Side(r)
    ensures IsOffset(r, SlotRow(r, n)) && IsOffset(r, SlotColumn(r, n))
    ensures BufferIndex(r, SlotRow(r, n), SlotColumn(r, n)) == n
  {
    var q, rem := n / Side(r), n % Side(r);
    assert n == q * Side(r) + rem && 0 <= rem < Side(r);
    if Side(r) <= q {
      MulMonotonic(Side(r), q, Side(r));
    }
    assert 0 <= q < Side(r);
  }

  /** The buffer holds an odd number of samples, so its median is unique. */
  lemma WindowSizeOdd(r: nat)
    ensures Side(r) * Side(r) % 2 == 1
  {
    assert Side(r) * Side(r) == 2 * (2 * r * r + 2 * r) + 1;
  }

  // ---------------------------------------------------------------------------
  // Specification
  // ---------------------------------------------------------------------------

  /** The samples of the neighbourhood of radius `r` around `(i, j)`, in buffer-slot order. */
  function Neighbourhood(r: nat, img: seq<int>, width: int, height: int, i: int, j: int): seq<int>
    requires |img| == width * height && IsInterior(r, width, height, i, j)
  {
    seq(Side(r) * Side(r), n requires 0 <= n < Side(r) * Side(r) =>
      BufferIndexOnto(r, n);
      img[PixelIndex(width, height, i + SlotColumn(r, n), j + SlotRow(r, n))])
  }

  /** The gathered buffer holds, in slot `BufferIndex(r, k, p)`, the sample at offset `(p, k)`. */
  lemma NeighbourhoodSlot(r: nat, img: seq<int>, width: int, height: int, i: int, j: int, k: int, p: int)
    requires |img| == width * height && IsInterior(r, width, height, i, j)
    requires IsOffset(r, k) && IsOffset(r, p)
    ensures |Neighbourhood(r, img, width, height, i, j)| == Side(r) * Side(r)
    ensures Neighbourhood(r, img, width, height, i, j)[BufferIndex(r, k, p)]
         == img[PixelIndex(width, height, i + p, j + k)]
  {
    BufferIndexInverse(r, k, p);
  }

  /**
   The state the kernel leaves: each interior pixel holds the median of its
   neighbourhood in `img`, every other pixel keeps the value it had `before`,
   and an image too small to have an interior is left exactly as it was.
   */
  ghost predicate FilterSpec(r: nat, img: seq<int>, width: int, height: int, before: seq<int>, after: seq<int>) {
    && |img| == width * height && |before| == width * height && |after| == width * height
    && (forall x, y :: IsInterior(r, width, height, x, y) ==>
          IsMedian(Neighbourhood(r, img, width, height, x, y), after[PixelIndex(width, height, x, y)]))
    && (forall x, y :: InImage(width, height, x, y) && !IsInterior(r, width, height, x, y) ==>
          after[PixelIndex(width, height, x, y)] == before[PixelIndex(width, height, x, y)])
    && (width <= r + r || height <= r + r ==> after == before)
  }

  /** Pixel `(x, y)` comes before `(i, j)` in row-major order. */
  predicate Before(x: int, y: int, i: int, j: int) {
    y < j || (y == j && x < i)
  }

  /** FilterSpec for the interior pixels before `(i, j)`; all other pixels still hold their prior value. */
  ghost predicate FilteredBefore(r: nat, img: seq<int>, width: int, height: int, before: seq<int>, after: seq<int>, i: int, j: int) {
    && |img| == width * height && |before| == width * height && |after| == width * height
    && (forall x, y :: IsInterior(r, width, height, x, y) && Before(x, y, i, j) ==>
          IsMedian(Neighbourhood(r, img, width, height, x, y), after[PixelIndex(width, height, x, y)]))
    && (forall x, y :: InImage(width, height, x, y) && !(IsInterior(r, width, height, x, y) && Before(x, y, i, j)) ==>
          after[PixelIndex(width, height, x, y)] == before[PixelIndex(width, height, x, y)])
    && (width <= r + r || height <= r + r ==> after == before)
  }

  // ---------------------------------------------------------------------------
  // The kernel
  // ---------------------------------------------------------------------------

  /** Per-pixel body of the kernel: gather the 7x7 neighbourhood, sort it, take the middle slot. */
  method PixelMedian(input: array<UShort>, width: int, height: int, i: int, j: int) returns (m: UShort)
    requires input.Length == width * height
    requires IsInterior(Window, width, height, i, j)
    ensures IsMedian(Neighbourhood(Window, input[..], width, height, i, j), m)
  {
    var buffer := new UShort[WindowCount * WindowCount];
    ghost var gathered := Neighbourhood(Window, input[..], width, height, i, j);
    assert |gathered| == buffer.Length;
    // Gather: slots are filled in increasing order, slot (k + 3) * 7 + p + 3 from offset (p, k).
    var k := -Window;
    while k <= Window
      invariant -Window <= k <= Window + 1
      invariant forall n :: 0 <= n < (k + Window) * WindowCount ==> buffer[n] == gathered[n]
    {
      var p := -Window;
      while p <= Window
        invariant -Window <= p <= Window + 1
        invariant forall n :: 0 <= n < (k + Window) * WindowCount + p + Window ==> buffer[n] == gathered[n]
      {
        var bufferIndex := BufferIndex(Window, k, p);
        var pixelIndex := PixelIndex(width, height, i + p, j + k);
        NeighbourhoodSlot(Window, input[..], width, height, i, j, k, p);
        buffer[bufferIndex] := input[pixelIndex];
        p := p + 1;
      }
      k := k + 1;
    }
    assert buffer[..] == gathered;
    assert buffer[0..buffer.Length] == gathered;
    Sort(buffer, 0, WindowCount * WindowCount);
    assert buffer[0..buffer.Length] == buffer[..];
    ghost var sorted := buffer[..];
    assert Sorted(sorted) && multiset(sorted) == multiset(gathered);
    // The middle slot of the sorted buffer is the median of the gathered samples.
    m := buffer[(WindowCount * WindowCount) / 2];
    SortedMiddleIsMedian(sorted);
    MedianOrderIndependent(sorted, gathered, m);
  }

  /**
   The kernel: a sweep over the interior pixels (the source runs them in
   parallel; each one reads only `input` and writes only its own output cell).
   */
  method ParForGPU(output: array<UShort>, input: array<UShort>, width: int, height: int)
    requires output != input
    requires input.Length == width * height && output.Length == width * height
    modifies output
    ensures FilterSpec(Window, input[..], width, height, old(output[..]), output[..])
    ensures input[..] == old(input[..])
  {
    var j := Window;
    while j < height - Window
      invariant Window <= j
      invariant FilteredBefore(Window, input[..], width, height, old(output[..]), output[..], Window, j)
    {
      var i := Window;
      while i < width - Window
        invariant Window <= i
        invariant FilteredBefore(Window, input[..], width, height, old(output[..]), output[..], i, j)
      {
        var m := PixelMedian(input, width, height, i, j);
        ghost var previous := output[..];
        output[PixelIndex(width, height, i, j)] := m;
        FilteredStep(Window, input[..], width, height, old(output[..]), previous, output[..], i, j, m);
        i := i + 1;
      }
      FilteredNextRow(Window, input[..], width, height, old(output[..]), output[..], i, j);
      j := j + 1;
    }
    FilteredDone(Window, input[..], width, height, old(output[..]), output[..], j);
  }

  lemma FilteredStep(r: nat, img: seq<int>, width: int, height: int, before: seq<int>,
                     previous: seq<int>, after: seq<int>, i: int, j: int, m: int)
    requires IsInterior(r, width, height, i, j)
    requires FilteredBefore(r, img, width, height, before, previous, i, j)
    requires IsMedian(Neighbourhood(r, img, width, height, i, j), m)
    requires after == previous[PixelIndex(width, height, i, j) := m]
    ensures FilteredBefore(r, img, width, height, before, after, i + 1, j)
  {
    forall x, y | InImage(width, height, x, y) && (x != i || y != j)
      ensures after[PixelIndex(width, height, x, y)] == previous[PixelIndex(width, height, x, y)]
    {
      PixelIndexInverse(width, height, x, y);
      PixelIndexInverse(width, height, i, j);
    }
  }

  lemma FilteredNextRow(r: nat, img: seq<int>, width: int, height: int, before: seq<int>, after: seq<int>, i: int, j: int)
    requires width - r <= i
    requires FilteredBefore(r, img, width, height, before, after, i, j)
    ensures FilteredBefore(r, img, width, height, before, after, r, j + 1)
  {
  }

  lemma FilteredDone(r: nat, img: seq<int>, width: int, height: int, before: seq<int>, after: seq<int>, j: int)
    requires height - r <= j
    requires FilteredBefore(r, img, width, height, before, after, r, j)
    ensures FilterSpec(r, img, width, height, before, after)
  {
  }

  // ---------------------------------------------------------------------------
  // Properties of the specification
  // ---------------------------------------------------------------------------

  /**
   FilterSpec leaves no choice: the output is fully determined by the input
   and the prior output, whatever order the pixels are processed in.
   */
  lemma FilterSpecDeterministic(r: nat, img: seq<int>, width: int, height: int,
                                before: seq<int>, after1: seq<int>, after2: seq<int>)
    requires FilterSpec(r, img, width, height, before, after1)
    requires FilterSpec(r, img, width, height, before, after2)
    ensures after1 == after2
  {
    if r + r < width && r + r < height {
      forall n | 0 <= n < |after1|
        ensures after1[n] == after2[n]
      {
        PixelIndexOnto(width, height, n);
        var x, y := n % width, n / width;
        if IsInterior(r, width, height, x, y) {
          WindowSizeOdd(r);
          var s := Neighbourhood(r, img, width, height, x, y);
          MedianUnique(s, after1[n], after2[n]);
        }
      }
    }
  }

  /** A pixel whose neighbourhood samples all equal `c` is set to `c`. */
  lemma FilterConstantNeighbourhood(r: nat, img: seq<int>, width: int, height: int,
                                    before: seq<int>, after: seq<int>, x: int, y: int, c: int)
    requires FilterSpec(r, img, width, height, before, after)
    requires IsInterior(r, width, height, x, y)
    requires forall k, p :: IsOffset(r, k) && IsOffset(r, p) ==> img[PixelIndex(width, height, x + p, y + k)] == c
    ensures after[PixelIndex(width, height, x, y)] == c
  {
    var s := Neighbourhood(r, img, width, height, x, y);
    NeighbourhoodConstant(r, img, width, height, x, y, c);
    assert IsMedian(s, after[PixelIndex(width, height, x, y)]);
    WindowSizeOdd(r);
    ConstantMedian(s, c, after[PixelIndex(width, height, x, y)]);
  }

  lemma NeighbourhoodConstant(r: nat, img: seq<int>, width: int, height: int, x: int, y: int, c: int)
    requires |img| == width * height && IsInterior(r, width, height, x, y)
    requires forall k, p :: IsOffset(r, k) && IsOffset(r, p) ==> img[PixelIndex(width, height, x + p, y + k)] == c
    ensures forall n :: 0 <= n < |Neighbourhood(r, img, width, height, x, y)| ==> Neighbourhood(r, img, width, height, x, y)[n] == c
  {
    var s := Neighbourhood(r, img, width, height, x, y);
    forall n | 0 <= n < |s|
      ensures s[n] == c
    {
      BufferIndexOnto(r, n);
    }
  }

  /** A constant image is mapped to a constant interior. */
  lemma FilterConstantImage(r: nat, img: seq<int>, width: int, height: int,
                            before: seq<int>, after: seq<int>, c: int)
    requires FilterSpec(r, img, width, height, before, after)
    requires forall q :: 0 <= q < |img| ==> img[q] == c
    ensures forall x, y :: IsInterior(r, width, height, x, y) ==> after[PixelIndex(width, height, x, y)] == c
  {
    forall x, y | IsInterior(r, width, height, x, y)
      ensures after[PixelIndex(width, height, x, y)] == c
    {
      FilterConstantNeighbourhood(r, img, width, height, before, after, x, y, c);
    }
  }

  /**
   A 7x7 image has exactly one interior pixel, the centre; its neighbourhood is
   the whole image in row-major order. For the samples 1..49 the centre becomes
   25 and every other pixel keeps its prior value.
   */
  lemma FilterSingleInteriorPixel(img: seq<int>, before: seq<int>, after: seq<int>)
    requires img == seq(49, q => q + 1)
    requires FilterSpec(Window, img, 7, 7, before, after)
    ensures forall x, y :: IsInterior(Window, 7, 7, x, y) <==> x == 3 && y == 3
    ensures after[24] == 25
    ensures forall q :: 0 <= q < 49 && q != 24 ==> after[q] == before[q]
  {
    WholeImageNeighbourhood(img);
    SortedMedian(img, after[PixelIndex(7, 7, 3, 3)]);
    forall q | 0 <= q < 49 && q != 24
      ensures after[q] == before[q]
    {
      PixelIndexOnto(7, 7, q);
    }
  }

  /** The median of an odd number of sorted samples is their middle element. */
  lemma SortedMedian(s: seq<int>, v: int)
    requires Sorted(s) && |s| % 2 == 1 && IsMedian(s, v)
    ensures v == s[|s| / 2]
  {
    SortedMiddleIsMedian(s);
    MedianUnique(s, v, s[|s| / 2]);
  }

  /** On a 7x7 image the radius-3 neighbourhood of the centre is the whole image, in row-major order. */
  lemma WholeImageNeighbourhood(img: seq<int>)
    requires |img| == 49
    ensures IsInterior(Window, 7, 7, 3, 3)
    ensures Neighbourhood(Window, img, 7, 7, 3, 3) == img
    ensures img == seq(49, q => q + 1) ==> Sorted(img)
  {
    var s := Neighbourhood(Window, img, 7, 7, 3, 3);
    forall n | 0 <= n < 49
      ensures s[n] == img[n]
    {
    }
  }

  /**
   The same ramp image 1..49 filtered with radius 1: pixel `(3, 3)` has the
   3x3 neighbourhood 17, 18, 19, 24, 25, 26, 31, 32, 33 and becomes 25.
   */
  lemma FilterRadiusOneRamp(img: seq<int>, before: seq<int>, after: seq<int>)
    requires img == seq(49, q => q + 1)
    requires FilterSpec(1, img, 7, 7, before, after)
    ensures IsInterior(1, 7, 7, 3, 3)
    ensures after[PixelIndex(7, 7, 3, 3)] == 25
  {
    RadiusOneRampNeighbourhood(img);
    SortedMedian(Neighbourhood(1, img, 7, 7, 3, 3), after[PixelIndex(7, 7, 3, 3)]);
  }

  lemma RadiusOneRampNeighbourhood(img: seq<int>)
    requires img == seq(49, q => q + 1)
    ensures IsInterior(1, 7, 7, 3, 3)
    ensures Neighbourhood(1, img, 7, 7, 3, 3) == [17, 18, 19, 24, 25, 26, 31, 32, 33]
    ensures Sorted(Neighbourhood(1, img, 7, 7, 3, 3))
  {
    var s := Neighbourhood(1, img, 7, 7, 3, 3);
    forall n | 0 <= n < 9
      ensures s[n] == (3 + n / 3 - 1) * 7 + (3 + n % 3 - 1) + 1
    {
    }
    assert s == [17, 18, 19, 24, 25, 26, 31, 32, 33];
  }
}
