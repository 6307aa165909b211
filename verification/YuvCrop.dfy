/** Cropping of YUV420SP images (camera/hal3on1/HAL3on1-adapter.cpp): a luma plane, followed by a
    plane of interleaved chroma pairs with half as many rows. */
module YuvCrop {
  import opened YuvPacking

  /** Sizes of an image. */
  datatype Frame = Frame(width: nat, height: nat) {
    function LumaSize(): nat {
      width * height
    }

    function ChromaSize(): nat {
      height / 2 * width
    }

    function Size(): nat {
      LumaSize() + ChromaSize()
    }
  }

  /** A rectangle in an image. */
  datatype Window = Window(x: nat, y: nat, width: nat, height: nat) {
    predicate Inside(f: Frame) {
      x + width <= f.width && y + height <= f.height
    }

    function AsFrame(): Frame {
      Frame(width, height)
    }
  }

  /** A window of a window, in coordinates of the outermost image. */
  function Nested(outer: Window, inner: Window): Window {
    Window(outer.x + inner.x, outer.y + inner.y, inner.width, inner.height)
  }

  function LumaIndex(f: Frame, x: nat, y: nat): nat {
    y * f.width + x
  }

  function ChromaIndex(f: Frame, x: nat, row: nat): nat {
    f.LumaSize() + (row * f.width + x)
  }

  lemma RowFits(row: nat, rows: nat, width: nat, x: nat)
    requires row < rows && x <= width
    ensures row * width + x <= rows * width && (x < width ==> row * width + x < rows * width)
  {
    assert row * width + width == (row + 1) * width <= rows * width;
  }

  function LumaAt(data: Bytes, f: Frame, x: nat, y: nat): Byte
    requires f.Size() <= |data| && x < f.width && y < f.height
  {
    RowFits(y, f.height, f.width, x);
    data[LumaIndex(f, x, y)]
  }

  function ChromaAt(data: Bytes, f: Frame, x: nat, row: nat): Byte
    requires f.Size() <= |data| && x < f.width && row < f.height / 2
  {
    RowFits(row, f.height / 2, f.width, x);
    data[ChromaIndex(f, x, row)]
  }

  /** The column of the first byte of a pixel's chroma pair. */
  function Left(x: nat): nat {
    x - x % 2
  }

  /** The chroma pair that belongs to the pixel (x, y). */
  function ChromaPair(data: Bytes, f: Frame, x: nat, y: nat): (Byte, Byte)
    requires f.Size() <= |data| && f.width % 2 == 0 && f.height % 2 == 0 && x < f.width && y < f.height
  {
    (ChromaAt(data, f, Left(x), y / 2), ChromaAt(data, f, Left(x) + 1, y / 2))
  }

  // ---- What is copied ----

  /** The rows that the two loops copy, first the luma rows, then the chroma rows. */
  function LumaRows(f: Frame, w: Window, n: nat): (rows: seq<Row>) {
    seq(n, i requires 0 <= i < n => Row(LumaIndex(f, w.x, w.y + i), w.width))
  }

  function ChromaRows(f: Frame, w: Window, n: nat): (rows: seq<Row>) {
    seq(n, i requires 0 <= i < n => Row(ChromaIndex(f, w.x, w.y / 2 + i), w.width))
  }

  function CropRows(f: Frame, w: Window): (rows: seq<Row>)
    ensures |rows| == w.height + w.height / 2
    ensures forall i :: 0 <= i < |rows| ==>
              rows[i] == if i < w.height then Row(LumaIndex(f, w.x, w.y + i), w.width)
                         else Row(ChromaIndex(f, w.x, w.y / 2 + (i - w.height)), w.width)
  {
    LumaRows(f, w, w.height) + ChromaRows(f, w, w.height / 2)
  }

  lemma LumaRowAt(f: Frame, w: Window, i: nat)
    requires i < w.height
    ensures CropRows(f, w)[i] == Row(LumaIndex(f, w.x, w.y + i), w.width)
  {
  }

  lemma ChromaRowAt(f: Frame, w: Window, i: nat)
    requires i < w.height / 2
    ensures CropRows(f, w)[w.height + i] == Row(ChromaIndex(f, w.x, w.y / 2 + i), w.width)
  {
  }

  lemma LumaRowFits(f: Frame, w: Window, i: nat)
    requires w.Inside(f) && i < w.height
    ensures LumaIndex(f, w.x, w.y + i) + w.width <= f.Size()
  {
    RowFits(w.y + i, f.height, f.width, w.x + w.width);
  }

  lemma ChromaRowFits(f: Frame, w: Window, i: nat)
    requires w.Inside(f) && i < w.height / 2
    ensures ChromaIndex(f, w.x, w.y / 2 + i) + w.width <= f.Size()
  {
    RowFits(w.y / 2 + i, f.height / 2, f.width, w.x + w.width);
  }

  /** Every access of the copy loops stays inside the source. */
  lemma CropRowsFit(f: Frame, w: Window, size: nat)
    requires w.Inside(f) && f.Size() <= size
    ensures Fits(CropRows(f, w), size)
  {
    forall i | 0 <= i < |CropRows(f, w)| ensures CropRows(f, w)[i].start + CropRows(f, w)[i].width <= size {
      if i < w.height {
        LumaRowFits(f, w, i);
      } else {
        ChromaRowFits(f, w, i - w.height);
      }
    }
  }

  lemma {:induction false} EvenRowsWidth(rows: seq<Row>, width: nat)
    requires forall i :: 0 <= i < |rows| ==> rows[i].width == width
    ensures TotalWidth(rows) == |rows| * width
  {
    if rows != [] {
      EvenRowsWidth(rows[..|rows| - 1], width);
    }
  }

  /** The packed position of a crop's k-th row; together they fill the buffer. */
  lemma CropRowsWidth(f: Frame, w: Window, k: nat)
    requires k <= w.height + w.height / 2
    ensures TotalWidth(CropRows(f, w)[..k]) == k * w.width
    ensures TotalWidth(CropRows(f, w)) == w.AsFrame().Size()
  {
    var rows := CropRows(f, w);
    EvenRowsWidth(rows[..k], w.width);
    EvenRowsWidth(rows, w.width);
    CropSize(w);
  }

  lemma CropSize(w: Window)
    ensures w.AsFrame().Size() == (w.height + w.height / 2) * w.width
  {
    Distribute(w.height, w.height / 2, w.width);
  }

  lemma Distribute(a: nat, b: nat, c: nat)
    ensures (a + b) * c == a * c + b * c
  {
  }

  /** How many bytes the code allocates. */
  function Allocated(w: Window): nat {
    w.width * w.height + w.width / 2 * (w.height / 2) * 2
  }

  lemma EvenPairs(half: nat, rows: nat)
    ensures rows * (2 * half) == half * rows * 2
  {
  }

  lemma OddPairs(half: nat, rows: nat)
    ensures rows * (2 * half + 1) == half * rows * 2 + rows
  {
  }

  /** Halving the width before multiplying by the number of pairs loses a byte per row of odd width. */
  lemma HalfPairs(width: nat, rows: nat)
    ensures rows * width == width / 2 * rows * 2 + if width % 2 == 0 then 0 else rows
  {
    var half := width / 2;
    if width % 2 == 0 {
      EvenPairs(half, rows);
      assert width == 2 * half;
    } else {
      OddPairs(half, rows);
      assert width == 2 * half + 1;
    }
  }

  /** The buffer that the code allocates has room for what it copies exactly when the width is even
      or there is no chroma row. */
  lemma AllocationFitsIffEven(f: Frame, w: Window)
    ensures TotalWidth(CropRows(f, w)) <= Allocated(w) <==> w.width % 2 == 0 || w.height < 2
    ensures w.width % 2 == 0 || w.height < 2 ==> Allocated(w) == w.AsFrame().Size()
  {
    CropRowsWidth(f, w, 0);
    HalfPairs(w.width, w.height / 2);
  }

  lemma AllocationIsExact(f: Frame, w: Window)
    requires TotalWidth(CropRows(f, w)) <= Allocated(w)
    ensures TotalWidth(CropRows(f, w)) == Allocated(w)
  {
    AllocationFitsIffEven(f, w);
    CropRowsWidth(f, w, 0);
  }

  /** The cropped image: what the copy loops leave in the new buffer. */
  function Cropped(src: Bytes, f: Frame, w: Window): (dst: Bytes)
    requires w.Inside(f) && f.Size() <= |src|
    ensures |dst| == w.AsFrame().Size()
  {
    CropRowsFit(f, w, |src|);
    CropRowsWidth(f, w, 0);
    Gather(src, CropRows(f, w))
  }

  /** Where byte `x` of the k-th copied row goes, and what it holds. */
  lemma CroppedByte(src: Bytes, f: Frame, w: Window, k: nat, x: nat)
    requires w.Inside(f) && f.Size() <= |src| && k < w.height + w.height / 2 && x < w.width
    ensures var at := CropRows(f, w)[k].start + x;
            at < |src| && k * w.width + x < |Cropped(src, f, w)| && Cropped(src, f, w)[k * w.width + x] == src[at]
  {
    CropRowsFit(f, w, |src|);
    CropRowsWidth(f, w, k);
    GatherAt(src, CropRows(f, w), k, CropRows(f, w)[k].start + x);
  }

  /** Every luma byte of the crop is the one at the shifted position of the source. */
  lemma CroppedLuma(src: Bytes, f: Frame, w: Window, x: nat, y: nat)
    requires w.Inside(f) && f.Size() <= |src| && x < w.width && y < w.height
    ensures LumaAt(Cropped(src, f, w), w.AsFrame(), x, y) == LumaAt(src, f, w.x + x, w.y + y)
  {
    CroppedByte(src, f, w, y, x);
  }

  /** Counting rows over both planes. */
  lemma ChromaPosition(f: Frame, x: nat, row: nat)
    ensures ChromaIndex(f, x, row) == (f.height + row) * f.width + x
  {
    assert (f.height + row) * f.width == f.height * f.width + row * f.width;
  }

  lemma CroppedChroma(src: Bytes, f: Frame, w: Window, x: nat, row: nat)
    requires w.Inside(f) && f.Size() <= |src| && x < w.width && row < w.height / 2
    ensures ChromaAt(Cropped(src, f, w), w.AsFrame(), x, row) == ChromaAt(src, f, w.x + x, w.y / 2 + row)
  {
    ChromaPosition(w.AsFrame(), x, row);
    CroppedByte(src, f, w, w.height + row, x);
  }

  // ---- Colours ----

  ghost predicate EvenSizes(f: Frame) {
    f.width % 2 == 0 && f.height % 2 == 0
  }

  ghost predicate ColourAgrees(src: Bytes, f: Frame, w: Window, x: nat, y: nat)
    requires w.Inside(f) && f.Size() <= |src| && x < w.width && y < w.height
    requires EvenSizes(f) && EvenSizes(w.AsFrame())
  {
    ChromaPair(Cropped(src, f, w), w.AsFrame(), x, y) == ChromaPair(src, f, w.x + x, w.y + y)
  }

  /** The colours of all pixels are those of the source at the shifted positions. */
  ghost predicate ColoursAgree(src: Bytes, f: Frame, w: Window)
    requires w.Inside(f) && f.Size() <= |src|
    requires EvenSizes(f) && EvenSizes(w.AsFrame())
  {
    forall x: nat, y: nat :: x < w.width && y < w.height ==> ColourAgrees(src, f, w, x, y)
  }

  ghost predicate AlwaysRight(f: Frame, w: Window)
    requires w.Inside(f) && EvenSizes(f) && EvenSizes(w.AsFrame())
  {
    forall src: Bytes :: f.Size() <= |src| ==> ColoursAgree(src, f, w)
  }

  lemma EvenShift(a: nat, b: nat)
    requires a % 2 == 0 || b % 2 == 0
    ensures (a + b) / 2 == a / 2 + b / 2 && (a + b) % 2 == a % 2 + b % 2
  {
  }

  /** With even offsets and sizes, pairs and rows of the crop are pairs and rows of the source. */
  lemma PairShift(f: Frame, w: Window, x: nat, y: nat)
    requires w.Inside(f) && x < w.width && y < w.height
    requires EvenSizes(f) && EvenSizes(w.AsFrame()) && w.x % 2 == 0 && w.y % 2 == 0
    ensures Left(w.x + x) == w.x + Left(x) && (w.y + y) / 2 == w.y / 2 + y / 2
    ensures Left(x) + 1 < w.width && y / 2 < w.height / 2
  {
    EvenShift(w.x, x);
    EvenShift(w.y, y);
  }

  lemma EvenOffsetsKeepColour(src: Bytes, f: Frame, w: Window, x: nat, y: nat)
    requires w.Inside(f) && f.Size() <= |src| && x < w.width && y < w.height
    requires EvenSizes(f) && EvenSizes(w.AsFrame()) && w.x % 2 == 0 && w.y % 2 == 0
    ensures ColourAgrees(src, f, w, x, y)
  {
    PairShift(f, w, x, y);
    CroppedChroma(src, f, w, Left(x), y / 2);
    CroppedChroma(src, f, w, Left(x) + 1, y / 2);
  }

  /** An image in which every chroma byte differs from its neighbours to the right and below. */
  function Checkered(f: Frame): (src: Bytes)
    ensures |src| == f.Size()
  {
    seq(f.Size(), i requires 0 <= i < f.Size() => if i < f.LumaSize() then 0 else Checker(f, i - f.LumaSize()))
  }

  function Checker(f: Frame, i: nat): Byte {
    if f.width == 0 then 0 else Parities(i % f.width, i / f.width)
  }

  function Parities(x: nat, row: nat): Byte {
    if x % 2 == 0 then (if row % 2 == 0 then 0 else 1) else (if row % 2 == 0 then 2 else 3)
  }

  lemma RowAndColumn(row: nat, width: nat, x: nat)
    requires x < width
    ensures (row * width + x) % width == x && (row * width + x) / width == row
  {
    var i := row * width + x;
    var q, m := i / width, i % width;
    assert i == q * width + m;
    if q > row {
      Multiply(row + 1, q, width);
    }
    if q < row {
      Multiply(q + 1, row, width);
    }
  }

  lemma Multiply(a: nat, b: nat, c: nat)
    requires a <= b
    ensures a * c <= b * c && (a > 0 ==> a * c == (a - 1) * c + c)
  {
  }

  lemma CheckeredAt(f: Frame, x: nat, row: nat)
    requires x < f.width && row < f.height / 2
    ensures ChromaAt(Checkered(f), f, x, row) == Parities(x, row)
  {
    RowFits(row, f.height / 2, f.width, x);
    assert Checkered(f)[ChromaIndex(f, x, row)] == Checker(f, row * f.width + x);
    RowAndColumn(row, f.width, x);
  }

  lemma OddRow(y: nat)
    ensures (y + y % 2) / 2 == y / 2 + y % 2 && y % 2 / 2 == 0
  {
  }

  lemma ParitiesDiffer(x: nat, row: nat, more: nat)
    requires more <= 1 && (x % 2 == 1 || more == 1)
    ensures Parities(x, row) != Parities(Left(x), row + more)
  {
  }

  lemma OneCropOfCheckered(f: Frame, w: Window)
    requires w.Inside(f) && w.width > 0 && w.height >= 2
    ensures ChromaAt(Cropped(Checkered(f), f, w), w.AsFrame(), 0, 0) == Parities(w.x, w.y / 2)
  {
    CroppedChroma(Checkered(f), f, w, 0, 0);
    CheckeredAt(f, w.x, w.y / 2);
  }

  /** What the crop shows and what it should show, at a byte of the checkered image. */
  lemma OddOffsetMixesByte(f: Frame, w: Window, y: nat)
    requires w.Inside(f) && w.width > 0 && w.height > 1 && y <= 1 && w.y / 2 + y < f.height / 2
    requires w.x % 2 == 1 || y == 1
    ensures ChromaAt(Cropped(Checkered(f), f, w), w.AsFrame(), 0, 0)
         != ChromaAt(Checkered(f), f, Left(w.x), w.y / 2 + y)
  {
    OneCropOfCheckered(f, w);
    CheckeredAt(f, Left(w.x), w.y / 2 + y);
    ParitiesDiffer(w.x, w.y / 2, y);
  }

  lemma OddOffsetMixesColour(f: Frame, w: Window, y: nat)
    requires w.Inside(f) && w.width > 0 && w.height > 0
    requires EvenSizes(f) && EvenSizes(w.AsFrame())
    requires (w.x % 2 == 1 || w.y % 2 == 1) && y == w.y % 2
    ensures !ColourAgrees(Checkered(f), f, w, 0, y)
  {
    OddRow(w.y);
    OddOffsetMixesByte(f, w, y);
  }

  /** Colours are right for every image exactly when both offsets are even: an odd horizontal offset
      swaps the parts of the pairs, an odd vertical one shifts every other row. */
  lemma ColoursRightIffEvenOffsets(f: Frame, w: Window)
    requires w.Inside(f) && w.width > 0 && w.height > 0
    requires EvenSizes(f) && EvenSizes(w.AsFrame())
    ensures AlwaysRight(f, w) <==> w.x % 2 == 0 && w.y % 2 == 0
  {
    if w.x % 2 == 0 && w.y % 2 == 0 {
      forall src: Bytes | f.Size() <= |src| ensures ColoursAgree(src, f, w) {
        forall x: nat, y: nat | x < w.width && y < w.height ensures ColourAgrees(src, f, w, x, y) {
          EvenOffsetsKeepColour(src, f, w, x, y);
        }
      }
    } else {
      OddOffsetMixesColour(f, w, w.y % 2);
      assert !ColoursAgree(Checkered(f), f, w);
    }
  }

  /** A centred crop of even sizes shows the right colours for every image exactly when both margins
      are multiples of 4. */
  lemma CentredCropIsRightIff(f: Frame, w: Window)
    requires w.Inside(f) && w.width > 0 && w.height > 0
    requires EvenSizes(f) && EvenSizes(w.AsFrame())
    requires w.x == (f.width - w.width) / 2 && w.y == (f.height - w.height) / 2
    ensures AlwaysRight(f, w) <==> (f.width - w.width) % 4 == 0 && (f.height - w.height) % 4 == 0
  {
    ColoursRightIffEvenOffsets(f, w);
    HalfOfEven(f.width, w.width);
    HalfOfEven(f.height, w.height);
  }

  lemma HalfOfEven(a: nat, b: nat)
    requires a % 2 == 0 && b % 2 == 0 && b <= a
    ensures (a - b) / 2 % 2 == 0 <==> (a - b) % 4 == 0
  {
    var p, q := a / 2, b / 2;
    assert a == 2 * p && b == 2 * q;
  }

  // ---- Crops of crops ----

  lemma Position(i: nat, width: nat, rows: nat) returns (x: nat, row: nat)
    requires i < rows * width
    ensures x < width && row < rows && i == row * width + x
  {
    assert width > 0;
    x, row := i % width, i / width;
    assert i == width * row + x;
    assert row >= rows ==> row * width >= rows * width;
  }

  /** Images that agree at every position are the same. */
  lemma SameImage(a: Bytes, b: Bytes, f: Frame)
    requires |a| == |b| == f.Size()
    requires forall x: nat, y: nat :: x < f.width && y < f.height ==> LumaAt(a, f, x, y) == LumaAt(b, f, x, y)
    requires forall x: nat, row: nat :: x < f.width && row < f.height / 2 ==>
               ChromaAt(a, f, x, row) == ChromaAt(b, f, x, row)
    ensures a == b
  {
    forall i | 0 <= i < |a| ensures a[i] == b[i] {
      if i < f.LumaSize() {
        var x, y := Position(i, f.width, f.height);
        assert LumaAt(a, f, x, y) == LumaAt(b, f, x, y);
      } else {
        var x, row := Position(i - f.LumaSize(), f.width, f.height / 2);
        assert ChromaAt(a, f, x, row) == ChromaAt(b, f, x, row);
      }
    }
  }

  /** The halves of the vertical offsets add up, or no chroma row is copied. */
  predicate AddsUp(outer: Window, inner: Window) {
    outer.y % 2 == 0 || inner.y % 2 == 0 || inner.height < 2
  }

  lemma TwiceCroppedLuma(src: Bytes, mid: Bytes, f: Frame, outer: Window, inner: Window, x: nat, y: nat)
    requires outer.Inside(f) && f.Size() <= |src| && inner.Inside(outer.AsFrame()) && mid == Cropped(src, f, outer)
    requires x < inner.width && y < inner.height
    ensures LumaAt(Cropped(mid, outer.AsFrame(), inner), inner.AsFrame(), x, y) ==
            LumaAt(src, f, outer.x + inner.x + x, outer.y + inner.y + y)
  {
    CroppedLuma(mid, outer.AsFrame(), inner, x, y);
    CroppedLuma(src, f, outer, inner.x + x, inner.y + y);
  }

  lemma TwiceCroppedChroma(src: Bytes, mid: Bytes, f: Frame, outer: Window, inner: Window, x: nat, row: nat)
    requires outer.Inside(f) && f.Size() <= |src| && inner.Inside(outer.AsFrame()) && mid == Cropped(src, f, outer)
    requires x < inner.width && row < inner.height / 2
    ensures ChromaAt(Cropped(mid, outer.AsFrame(), inner), inner.AsFrame(), x, row) ==
            ChromaAt(src, f, outer.x + inner.x + x, outer.y / 2 + inner.y / 2 + row)
  {
    CroppedChroma(mid, outer.AsFrame(), inner, x, row);
    CroppedChroma(src, f, outer, inner.x + x, inner.y / 2 + row);
  }

  lemma CropOfCrop(src: Bytes, f: Frame, outer: Window, inner: Window)
    requires outer.Inside(f) && f.Size() <= |src| && inner.Inside(outer.AsFrame())
    requires AddsUp(outer, inner)
    ensures Cropped(Cropped(src, f, outer), outer.AsFrame(), inner) == Cropped(src, f, Nested(outer, inner))
  {
    var mid := Cropped(src, f, outer);
    var a, b := Cropped(mid, outer.AsFrame(), inner), Cropped(src, f, Nested(outer, inner));
    forall x: nat, y: nat | x < inner.width && y < inner.height
      ensures LumaAt(a, inner.AsFrame(), x, y) == LumaAt(b, inner.AsFrame(), x, y)
    {
      TwiceCroppedLuma(src, mid, f, outer, inner, x, y);
      CroppedLuma(src, f, Nested(outer, inner), x, y);
    }
    forall x: nat, row: nat | x < inner.width && row < inner.height / 2
      ensures ChromaAt(a, inner.AsFrame(), x, row) == ChromaAt(b, inner.AsFrame(), x, row)
    {
      EvenShift(outer.y, inner.y);
      TwiceCroppedChroma(src, mid, f, outer, inner, x, row);
      CroppedChroma(src, f, Nested(outer, inner), x, row);
    }
    SameImage(a, b, inner.AsFrame());
  }

  ghost predicate CropsCompose(f: Frame, outer: Window, inner: Window)
    requires outer.Inside(f) && inner.Inside(outer.AsFrame())
  {
    forall src: Bytes :: f.Size() <= |src| ==>
      Cropped(Cropped(src, f, outer), outer.AsFrame(), inner) == Cropped(src, f, Nested(outer, inner))
  }

  lemma OddHalves(a: nat, b: nat)
    requires a % 2 == 1 && b % 2 == 1
    ensures (a + b) / 2 == a / 2 + b / 2 + 1
  {
  }

  lemma ParitiesDifferBelow(x: nat, row: nat)
    ensures Parities(x, row) != Parities(x, row + 1)
  {
  }

  /** The first chroma byte after two crops of the checkered image. */
  lemma TwoCropsOfCheckered(f: Frame, outer: Window, inner: Window)
    requires outer.Inside(f) && inner.Inside(outer.AsFrame()) && inner.width > 0 && inner.height >= 2
    ensures ChromaAt(Cropped(Cropped(Checkered(f), f, outer), outer.AsFrame(), inner), inner.AsFrame(), 0, 0) ==
            Parities(outer.x + inner.x, outer.y / 2 + inner.y / 2)
  {
    TwiceCroppedChroma(Checkered(f), Cropped(Checkered(f), f, outer), f, outer, inner, 0, 0);
    CheckeredAt(f, outer.x + inner.x, outer.y / 2 + inner.y / 2);
  }

  lemma OddCropsLoseARow(f: Frame, outer: Window, inner: Window)
    requires outer.Inside(f) && inner.Inside(outer.AsFrame()) && inner.width > 0 && !AddsUp(outer, inner)
    ensures Cropped(Cropped(Checkered(f), f, outer), outer.AsFrame(), inner) !=
            Cropped(Checkered(f), f, Nested(outer, inner))
  {
    TwoCropsOfCheckered(f, outer, inner);
    OneCropOfCheckered(f, Nested(outer, inner));
    OddHalves(outer.y, inner.y);
    ParitiesDifferBelow(outer.x + inner.x, outer.y / 2 + inner.y / 2);
  }

  /** Cropping a crop is one crop with the offsets added - for every image exactly when not both
      vertical offsets are odd: two odd ones lose a chroma row. */
  lemma CropsComposeIff(f: Frame, outer: Window, inner: Window)
    requires outer.Inside(f) && inner.Inside(outer.AsFrame()) && inner.width > 0
    ensures CropsCompose(f, outer, inner) <==> AddsUp(outer, inner)
  {
    if AddsUp(outer, inner) {
      forall src: Bytes | f.Size() <= |src|
        ensures Cropped(Cropped(src, f, outer), outer.AsFrame(), inner) == Cropped(src, f, Nested(outer, inner))
      {
        CropOfCrop(src, f, outer, inner);
      }
    } else {
      OddCropsLoseARow(f, outer, inner);
    }
  }

  // ---- The code ----

  /** The offsets of a centred crop; (0, 0) when it does not fit. */
  method GetCropPoint(srcWidth: int, srcHeight: int, cropWidth: int, cropHeight: int) returns (x: int, y: int)
    ensures cropWidth <= srcWidth && cropHeight <= srcHeight ==>
              && 0 <= x && x + cropWidth <= srcWidth && 0 <= srcWidth - cropWidth - 2 * x <= 1
              && 0 <= y && y + cropHeight <= srcHeight && 0 <= srcHeight - cropHeight - 2 * y <= 1
    ensures cropWidth > srcWidth || cropHeight > srcHeight ==> x == 0 && y == 0
  {
    if cropWidth > srcWidth || cropHeight > srcHeight {
      return 0, 0;
    }
    x := (srcWidth - cropWidth) / 2;
    y := (srcHeight - cropHeight) / 2;
  }

  /** For any window, even one that reaches past the image: the reads stay inside a buffer exactly when
      those of the last row of each plane do. */
  lemma ReadsFitIff(f: Frame, w: Window, size: nat)
    ensures Fits(CropRows(f, w), size) <==>
            && (w.height > 0 ==> LumaIndex(f, w.x, w.y + w.height - 1) + w.width <= size)
            && (w.height > 1 ==> ChromaIndex(f, w.x, w.y / 2 + w.height / 2 - 1) + w.width <= size)
  {
    var rows, n := CropRows(f, w), w.height;
    if n > 0 {
      LumaRowAt(f, w, n - 1);
      forall i | 0 <= i < n ensures rows[i].start <= rows[n - 1].start {
        LumaRowAt(f, w, i);
        Multiply(w.y + i, w.y + n - 1, f.width);
      }
    }
    if n > 1 {
      var last := n / 2 - 1;
      ChromaRowAt(f, w, last);
      forall i | n <= i < |rows| ensures rows[i].start <= rows[n + last].start {
        ChromaRowAt(f, w, i - n);
        Multiply(w.y / 2 + (i - n), w.y / 2 + last, f.width);
      }
    }
  }

  /** A stream that is narrower but taller than the image is cropped from (0, 0), and read past its end. */
  lemma TallCropReadsPast()
    ensures var f, w := Frame(4, 2), Window(0, 0, 2, 8);
            w.width < f.width && f.Size() == 12 && !Fits(CropRows(f, w), 12)
  {
    ReadsFitIff(Frame(4, 2), Window(0, 0, 2, 8), 12);
  }

  lemma {:induction false} PrefixFits(all: seq<Row>, some: seq<Row>, size: nat)
    requires Fits(all, size) && some <= all
    ensures Fits(some, size) && TotalWidth(some) <= TotalWidth(all)
  {
    TotalWidthGrows(all, |some|);
    assert all[..|some|] == some;
  }

  /** The next row of a loop: it extends what was copied by one row, and it fits. */
  lemma {:induction false} NextOf(all: seq<Row>, copied: seq<Row>, row: Row, size: nat)
    requires Fits(all, size) && copied + [row] <= all
    ensures Fits(copied + [row], size) && row.start + row.width <= size
    ensures TotalWidth(copied) + row.width <= TotalWidth(all)
  {
    PrefixFits(all, copied + [row], size);
    TotalWidthSnoc(copied, row);
    assert (copied + [row])[|copied|] == row;
  }

  lemma NextLumaRow(f: Frame, w: Window, i: nat)
    requires i < w.height
    ensures LumaRows(f, w, i + 1) == LumaRows(f, w, i) + [Row(LumaIndex(f, w.x, w.y + i), w.width)]
    ensures LumaRows(f, w, i + 1) <= CropRows(f, w)
  {
    assert LumaRows(f, w, i + 1) <= LumaRows(f, w, w.height);
  }

  lemma NextChromaRow(f: Frame, w: Window, i: nat)
    requires i < w.height / 2
    ensures LumaRows(f, w, w.height) + ChromaRows(f, w, i + 1) ==
            LumaRows(f, w, w.height) + ChromaRows(f, w, i) + [Row(ChromaIndex(f, w.x, w.y / 2 + i), w.width)]
    ensures LumaRows(f, w, w.height) + ChromaRows(f, w, i + 1) <= CropRows(f, w)
  {
    assert ChromaRows(f, w, i + 1) == ChromaRows(f, w, i) + [Row(ChromaIndex(f, w.x, w.y / 2 + i), w.width)];
    assert ChromaRows(f, w, i + 1) <= ChromaRows(f, w, w.height / 2);
  }

  /** The first loop. */
  method CropLuma(src: array<Byte>, dst: array<Byte>, f: Frame, w: Window, ghost before: Bytes) returns (offsetW: nat)
    requires src != dst && Fits(CropRows(f, w), src.Length) && TotalWidth(CropRows(f, w)) <= |before|
    requires dst[..] == before
    modifies dst
    ensures PackedRows(dst[..], src[..], LumaRows(f, w, w.height), offsetW, before)
  {
    offsetW := 0;
    ghost var copied: seq<Row> := [];
    for i := 0 to w.height
      invariant copied == LumaRows(f, w, i) && PackedRows(dst[..], src[..], copied, offsetW, before)
    {
      var index := LumaIndex(f, w.x, w.y + i);
      NextLumaRow(f, w, i);
      NextOf(CropRows(f, w), copied, Row(index, w.width), src.Length);
      PackRow(src, dst, index, offsetW, w.width, copied, before);
      copied := copied + [Row(index, w.width)];
      offsetW := offsetW + w.width;
    }
  }

  /** The second loop. */
  method CropChroma(src: array<Byte>, dst: array<Byte>, f: Frame, w: Window, offset: nat, ghost before: Bytes)
    returns (offsetW: nat)
    requires src != dst && Fits(CropRows(f, w), src.Length) && TotalWidth(CropRows(f, w)) <= |before|
    requires PackedRows(dst[..], src[..], LumaRows(f, w, w.height), offset, before)
    modifies dst
    ensures PackedRows(dst[..], src[..], CropRows(f, w), offsetW, before)
  {
    offsetW := offset;
    ghost var luma := LumaRows(f, w, w.height);
    ghost var copied := luma;
    for i := 0 to w.height / 2
      invariant copied == luma + ChromaRows(f, w, i) && PackedRows(dst[..], src[..], copied, offsetW, before)
    {
      var index := ChromaIndex(f, w.x, w.y / 2 + i);
      NextChromaRow(f, w, i);
      NextOf(CropRows(f, w), copied, Row(index, w.width), src.Length);
      PackRow(src, dst, index, offsetW, w.width, copied, before);
      copied := copied + [Row(index, w.width)];
      offsetW := offsetW + w.width;
    }
  }

  /** The crop of any window whose reads stay inside the source and whose allocation is large enough. */
  method Yuv420spCrop(src: array<Byte>, f: Frame, w: Window) returns (dst: array<Byte>)
    requires Fits(CropRows(f, w), src.Length)
    requires TotalWidth(CropRows(f, w)) <= Allocated(w)
    ensures fresh(dst) && dst.Length == Allocated(w)
    ensures dst[..] == Gather(src[..], CropRows(f, w))
    ensures w.Inside(f) && f.Size() <= src.Length ==> dst[..] == Cropped(src[..], f, w)
  {
    var dstYSize := w.width * w.height;
    var dstUvSize := w.width / 2 * (w.height / 2) * 2;
    AllocationIsExact(f, w);
    dst := new Byte[dstYSize + dstUvSize];
    ghost var before := dst[..];
    var y := CropLuma(src, dst, f, w, before);
    var uv := CropChroma(src, dst, f, w, y, before);
  }
}
