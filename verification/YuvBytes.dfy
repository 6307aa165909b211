/** The copies of planes, byte by byte, in the numbers of the callers' structures
    (camera/QCamera2/HAL/QCamera2HWICallbacks.cpp, camera/hal3on1/HAL3on1-adapter.cpp). */
module YuvBytes {
  import opened YuvPacking
  import opened YuvCrop

  // ---- Any number of planes ----

  lemma {:induction false} CopiedWidth(layout: seq<Plane>, i: nat, j: nat)
    requires i < |layout| && j <= RowCount(layout, i)
    ensures |Copied(layout, i, j)| == |RowsOf(layout, i)| + j
    ensures TotalWidth(Copied(layout, i, j)) == TotalWidth(RowsOf(layout, i)) + j * layout[i].width
  {
    if j == 0 {
      CopiedPlane(layout, i);
    } else {
      var row := Row(RowStart(layout, i, j - 1), layout[i].width);
      CopiedWidth(layout, i, j - 1);
      CopiedSnoc(layout, i, j - 1, row);
      TotalWidthSnoc(Copied(layout, i, j - 1), row);
      assert j * layout[i].width == (j - 1) * layout[i].width + layout[i].width;
    }
  }

  /** Row `j` of plane `i` among all rows, and where its bytes are packed. */
  lemma {:induction false} RowOfPlane(layout: seq<Plane>, i: nat, j: nat)
    requires i < |layout| && j < RowCount(layout, i)
    ensures var all, k := RowsOf(layout, |layout|), |RowsOf(layout, i)| + j;
            && k < |all| && all[k] == Row(RowStart(layout, i, j), layout[i].width)
            && TotalWidth(all[..k]) == TotalWidth(RowsOf(layout, i)) + j * layout[i].width
  {
    var all, now, next := RowsOf(layout, |layout|), Copied(layout, i, j), Copied(layout, i, j + 1);
    CopiedWidth(layout, i, j);
    CopiedSnoc(layout, i, j, Row(RowStart(layout, i, j), layout[i].width));
    CopiedIsPrefix(layout, i, j + 1);
    assert all[..|next|] == next;
    assert all[|now|] == next[|now|] && all[..|now|] == next[..|now|] == now;
  }

  /** Both positions exist and hold the same byte. */
  ghost predicate SameByte(a: Bytes, i: int, b: Bytes, j: int) {
    0 <= i < |a| && 0 <= j < |b| && a[i] == b[j]
  }

  /** A byte of a row is packed there, and restored from there. */
  lemma {:induction false} ByteOfPlane(layout: seq<Plane>, i: nat, j: nat, x: nat, frame: Bytes, packed: Bytes,
                                       at: nat, from: nat)
    requires i < |layout| && j < RowCount(layout, i) && x < layout[i].width
    requires at == TotalWidth(RowsOf(layout, i)) + (j * layout[i].width + x) && from == RowStart(layout, i, j) + x
    requires Fits(RowsOf(layout, |layout|), |frame|) && |packed| == TotalWidth(RowsOf(layout, |layout|))
    ensures SameByte(Gather(frame, RowsOf(layout, |layout|)), at, frame, from)
    ensures DisjointRows(RowsOf(layout, |layout|)) ==>
              SameByte(Scatter(packed, RowsOf(layout, |layout|), frame), from, packed, at)
  {
    var rows, k := RowsOf(layout, |layout|), |RowsOf(layout, i)| + j;
    RowOfPlane(layout, i, j);
    assert rows[k].Covers(from);
    GatherAt(frame, rows, k, from);
    if DisjointRows(rows) {
      ScatterAt(packed, rows, frame, k, from);
    }
  }

  // ---- A luma plane `p` and a chroma plane `q` ----

  lemma {:induction false} TwoPlaneRows(p: Plane, q: Plane)
    ensures var layout := [p, q];
            && RowCount(layout, 0) == p.height && RowCount(layout, 1) == p.height / 2
            && (forall j: nat :: RowStart(layout, 0, j) == p.offset + j * p.stride)
            && (forall j: nat :: RowStart(layout, 1, j) == q.offset + p.len + j * q.stride)
            && RowsOf(layout, 0) == [] && TotalWidth(RowsOf(layout, 0)) == 0
            && |RowsOf(layout, 1)| == p.height && TotalWidth(RowsOf(layout, 1)) == p.height * p.width
            && |RowsOf(layout, 2)| == p.height + p.height / 2
            && TotalWidth(RowsOf(layout, 2)) == p.height * p.width + p.height / 2 * q.width
  {
    var layout := [p, q];
    CopiedWidth(layout, 0, p.height);
    CopiedPlane(layout, 0);
    CopiedWidth(layout, 1, p.height / 2);
    CopiedPlane(layout, 1);
  }

  /** The first `n` rows of a plane with that base fit if the last one does. */
  ghost predicate PlaneFits(base: nat, stride: nat, width: nat, n: nat, size: nat) {
    n >= 1 ==> base + (n - 1) * stride + width <= size
  }

  lemma ProductGrows(a: nat, b: nat, c: nat)
    requires a <= b
    ensures a * c <= b * c
  {
    var d: nat := b - a;
    assert b * c == a * c + d * c;
  }

  lemma RowFitsWithLast(base: nat, stride: nat, width: nat, n: nat, size: nat, j: nat)
    requires PlaneFits(base, stride, width, n, size) && j < n
    ensures base + j * stride + width <= size
  {
    ProductGrows(j, n - 1, stride);
  }

  lemma {:induction false} PlaneFitsIff(layout: seq<Plane>, i: nat, size: nat)
    requires i < |layout|
    ensures Fits(RowsOfPlane(layout, i, RowCount(layout, i)), size) ==
            PlaneFits(RowStart(layout, i, 0), layout[i].stride, layout[i].width, RowCount(layout, i), size)
  {
    var base, n, rows := RowStart(layout, i, 0), RowCount(layout, i), RowsOfPlane(layout, i, RowCount(layout, i));
    if PlaneFits(base, layout[i].stride, layout[i].width, n, size) {
      forall j | 0 <= j < n ensures rows[j].start + rows[j].width <= size {
        RowFitsWithLast(base, layout[i].stride, layout[i].width, n, size, j);
      }
    } else {
      assert rows[n - 1].start + rows[n - 1].width > size;
    }
  }

  lemma FitsConcat(a: seq<Row>, b: seq<Row>, size: nat)
    ensures Fits(a + b, size) == (Fits(a, size) && Fits(b, size))
  {
    if Fits(a + b, size) {
      forall i | 0 <= i < |a| ensures a[i].start + a[i].width <= size {
        assert (a + b)[i] == a[i];
      }
      forall i | 0 <= i < |b| ensures b[i].start + b[i].width <= size {
        assert (a + b)[|a| + i] == b[i];
      }
    }
  }

  lemma {:induction false} OneMorePlaneFits(layout: seq<Plane>, i: nat, size: nat)
    requires i < |layout|
    ensures Fits(RowsOf(layout, i + 1), size) ==
            (Fits(RowsOf(layout, i), size)
             && PlaneFits(RowStart(layout, i, 0), layout[i].stride, layout[i].width, RowCount(layout, i), size))
  {
    FitsConcat(RowsOf(layout, i), RowsOfPlane(layout, i, RowCount(layout, i)), size);
    PlaneFitsIff(layout, i, size);
  }

  /** The frame holds all rows exactly if it holds the last one of each plane. */
  lemma {:induction false} TwoPlanesFitIff(p: Plane, q: Plane, size: nat)
    ensures Fits(RowsOf([p, q], 2), size) ==
            (PlaneFits(p.offset, p.stride, p.width, p.height, size)
             && PlaneFits(q.offset + p.len, q.stride, q.width, p.height / 2, size))
  {
    PlacesInLayout(p, q, 0);
    OneMorePlaneFits([p, q], 0, size);
    OneMorePlaneFits([p, q], 1, size);
  }

  /** How long a packed frame is: the luma rows, and half as many chroma rows. */
  lemma PackedLength(p: Plane, q: Plane, frame: Bytes)
    requires Fits(RowsOf([p, q], 2), |frame|)
    ensures |Gather(frame, RowsOf([p, q], 2))| == p.height * p.width + p.height / 2 * q.width
  {
    TwoPlaneRows(p, q);
  }

  lemma {:induction false} PlacesInLayout(p: Plane, q: Plane, j: nat)
    ensures var layout := [p, q];
            && layout[0] == p && RowCount(layout, 0) == p.height && TotalWidth(RowsOf(layout, 0)) == 0
            && RowStart(layout, 0, j) == p.offset + j * p.stride
            && layout[1] == q && RowCount(layout, 1) == p.height / 2
            && TotalWidth(RowsOf(layout, 1)) == p.height * p.width
            && RowStart(layout, 1, j) == q.offset + p.len + j * q.stride
  {
    TwoPlaneRows(p, q);
  }

  /** Byte `x` of luma row `j` is packed after `j` whole rows, and restored from there. */
  lemma {:induction false} LumaInBytes(p: Plane, q: Plane, frame: Bytes, packed: Bytes, j: nat, x: nat,
                                       at: nat, from: nat)
    requires Fits(RowsOf([p, q], 2), |frame|) && |packed| == TotalWidth(RowsOf([p, q], 2))
    requires j < p.height && x < p.width
    requires at == j * p.width + x && from == p.offset + j * p.stride + x
    ensures SameByte(Gather(frame, RowsOf([p, q], 2)), at, frame, from)
    ensures DisjointRows(RowsOf([p, q], 2)) ==> SameByte(Scatter(packed, RowsOf([p, q], 2), frame), from, packed, at)
  {
    PlacesInLayout(p, q, j);
    ByteOfPlane([p, q], 0, j, x, frame, packed, at, from);
  }

  /** Byte `x` of chroma row `j` is packed after all luma rows and `j` whole rows; in the frame the chroma
      plane begins where the luma plane ends. */
  lemma {:induction false} ChromaInBytes(p: Plane, q: Plane, frame: Bytes, packed: Bytes, j: nat, x: nat,
                                         at: nat, from: nat)
    requires Fits(RowsOf([p, q], 2), |frame|) && |packed| == TotalWidth(RowsOf([p, q], 2))
    requires j < p.height / 2 && x < q.width
    requires at == p.height * p.width + (j * q.width + x) && from == q.offset + p.len + j * q.stride + x
    ensures SameByte(Gather(frame, RowsOf([p, q], 2)), at, frame, from)
    ensures DisjointRows(RowsOf([p, q], 2)) ==> SameByte(Scatter(packed, RowsOf([p, q], 2), frame), from, packed, at)
  {
    PlacesInLayout(p, q, j);
    ByteOfPlane([p, q], 1, j, x, frame, packed, at, from);
  }

  /** The position is in row `j` of a plane with that base. */
  predicate InRow(base: nat, stride: nat, width: nat, j: nat, t: nat) {
    base + j * stride <= t < base + j * stride + width
  }

  /** Restoring changes nothing but the bytes of these rows. */
  lemma {:induction false} RestKept(p: Plane, q: Plane, frame: Bytes, packed: Bytes, t: nat)
    requires Fits(RowsOf([p, q], 2), |frame|) && |packed| == TotalWidth(RowsOf([p, q], 2)) && t < |frame|
    requires forall j: nat :: j < p.height ==> !InRow(p.offset, p.stride, p.width, j, t)
    requires var chroma := q.offset + p.len;
             forall j: nat :: j < p.height / 2 ==> !InRow(chroma, q.stride, q.width, j, t)
    ensures SameByte(Scatter(packed, RowsOf([p, q], 2), frame), t, frame, t)
  {
    var layout, rows := [p, q], RowsOf([p, q], 2);
    TwoPlaneRows(p, q);
    forall k | 0 <= k < |rows| ensures !rows[k].Covers(t) {
      if k < p.height {
        RowOfPlane(layout, 0, k);
        assert !InRow(p.offset, p.stride, p.width, k, t);
      } else {
        RowOfPlane(layout, 1, k - p.height);
        assert !InRow(q.offset + p.len, q.stride, q.width, k - p.height, t);
      }
    }
    ScatterKeepsPadding(packed, rows, frame, t);
  }

  // ---- The crop ----

  /** Byte `x` of luma row `y` of a crop, in any window whose reads stay inside the source. */
  lemma {:induction false} CropLumaInBytes(src: Bytes, f: Frame, w: Window, x: nat, y: nat)
    requires Fits(CropRows(f, w), |src|) && x < w.width && y < w.height
    ensures SameByte(Gather(src, CropRows(f, w)), y * w.width + x, src, (w.y + y) * f.width + (w.x + x))
  {
    var rows := CropRows(f, w);
    CropRowsWidth(f, w, y);
    LumaRowAt(f, w, y);
    assert rows[y].Covers(rows[y].start + x);
    GatherAt(src, rows, y, rows[y].start + x);
  }

  /** Byte `x` of chroma row `y`: these rows follow the luma rows, and begin at half the vertical offset. */
  lemma {:induction false} CropChromaInBytes(src: Bytes, f: Frame, w: Window, x: nat, y: nat)
    requires Fits(CropRows(f, w), |src|) && x < w.width && y < w.height / 2
    ensures SameByte(Gather(src, CropRows(f, w)), (w.height + y) * w.width + x,
                     src, f.width * f.height + ((w.y / 2 + y) * f.width + (w.x + x)))
  {
    var rows, k := CropRows(f, w), w.height + y;
    CropRowsWidth(f, w, k);
    ChromaRowAt(f, w, y);
    assert rows[k].Covers(rows[k].start + x);
    GatherAt(src, rows, k, rows[k].start + x);
  }

  /** A crop has as many bytes as its luma rows and half as many chroma rows. */
  lemma CropLength(src: Bytes, f: Frame, w: Window)
    requires Fits(CropRows(f, w), |src|)
    ensures |Gather(src, CropRows(f, w))| == (w.height + w.height / 2) * w.width
  {
    CropRowsWidth(f, w, 0);
    CropSize(w);
  }
}
