/** Removing and restoring the padding of camera frames
    (camera/QCamera2/HAL/QCamera2HWICallbacks.cpp): strided copies between a frame whose rows are
    `stride` bytes apart and a packed buffer. */
module YuvPacking {
  newtype Byte = b: int | 0 <= b < 256

  type Bytes = seq<Byte>

  datatype Plane = Plane(offset: nat, len: nat, width: nat, height: nat, stride: nat)

  /** A row of pixels in the frame. */
  datatype Row = Row(start: nat, width: nat) {
    predicate Covers(x: int) {
      start <= x < start + width
    }
  }

  /** Where plane `i` begins: the code adds the length of the plane before it. */
  function Base(layout: seq<Plane>, i: nat): (b: nat)
    requires i < |layout|
  {
    layout[i].offset + if i > 0 then layout[i - 1].len else 0
  }

  /** How many rows plane `i` has: later planes have half the rows of the plane before them. */
  function RowCount(layout: seq<Plane>, i: nat): (n: nat)
    requires i < |layout|
  {
    if i > 0 then layout[i - 1].height / 2 else layout[i].height
  }

  /** Where row `j` of plane `i` begins. */
  function RowStart(layout: seq<Plane>, i: nat, j: nat): (x: nat)
    requires i < |layout|
  {
    Base(layout, i) + j * layout[i].stride
  }

  function RowsOfPlane(layout: seq<Plane>, i: nat, n: nat): (rows: seq<Row>)
    requires i < |layout|
    ensures |rows| == n
  {
    seq(n, j requires 0 <= j < n => Row(RowStart(layout, i, j), layout[i].width))
  }

  /** All rows of the first `i` planes, in the order in which they are copied. */
  function RowsOf(layout: seq<Plane>, i: nat): (rows: seq<Row>)
    requires i <= |layout|
  {
    if i == 0 then [] else RowsOf(layout, i - 1) + RowsOfPlane(layout, i - 1, RowCount(layout, i - 1))
  }

  function TotalWidth(rows: seq<Row>): (n: nat) {
    if rows == [] then 0 else TotalWidth(rows[..|rows| - 1]) + rows[|rows| - 1].width
  }

  ghost predicate Fits(rows: seq<Row>, size: nat) {
    forall i :: 0 <= i < |rows| ==> rows[i].start + rows[i].width <= size
  }

  ghost predicate DisjointRows(rows: seq<Row>) {
    forall i, j, x: int :: 0 <= i < j < |rows| && rows[i].Covers(x) ==> !rows[j].Covers(x)
  }

  lemma FitsPrefix(rows: seq<Row>, size: nat, k: nat)
    requires Fits(rows, size) && k <= |rows|
    ensures Fits(rows[..k], size)
  {
  }

  /** The bytes of the rows, one row after the other. */
  function Gather(frame: Bytes, rows: seq<Row>): (packed: Bytes)
    requires Fits(rows, |frame|)
    ensures |packed| == TotalWidth(rows)
  {
    if rows == [] then []
    else
      var row := rows[|rows| - 1];
      FitsPrefix(rows, |frame|, |rows| - 1);
      Gather(frame, rows[..|rows| - 1]) + frame[row.start..row.start + row.width]
  }

  function Splice(frame: Bytes, at: nat, piece: Bytes): (r: Bytes)
    requires at + |piece| <= |frame|
    ensures |r| == |frame|
    ensures forall x :: 0 <= x < |frame| ==> r[x] == if at <= x < at + |piece| then piece[x - at] else frame[x]
  {
    frame[..at] + piece + frame[at + |piece|..]
  }

  /** The frame after writing packed bytes back, row after row. */
  function Scatter(packed: Bytes, rows: seq<Row>, frame: Bytes): (r: Bytes)
    requires Fits(rows, |frame|) && |packed| == TotalWidth(rows)
    ensures |r| == |frame|
    decreases rows
  {
    if rows == [] then frame
    else
      var row := rows[|rows| - 1];
      var done := TotalWidth(rows[..|rows| - 1]);
      FitsPrefix(rows, |frame|, |rows| - 1);
      Splice(Scatter(packed[..done], rows[..|rows| - 1], frame), row.start, packed[done..])
  }

  /** Padding, and everything else outside the rows, is never touched. */
  lemma {:induction false} ScatterKeepsPadding(packed: Bytes, rows: seq<Row>, frame: Bytes, x: nat)
    requires Fits(rows, |frame|) && |packed| == TotalWidth(rows) && x < |frame|
    requires forall i :: 0 <= i < |rows| ==> !rows[i].Covers(x)
    ensures Scatter(packed, rows, frame)[x] == frame[x]
    decreases rows
  {
    if rows != [] {
      var n := |rows| - 1;
      FitsPrefix(rows, |frame|, n);
      ScatterKeepsPadding(packed[..TotalWidth(rows[..n])], rows[..n], frame, x);
    }
  }

  /** Frames that agree on the rows pack to the same bytes. */
  lemma {:induction false} GatherReadsRowsOnly(f: Bytes, g: Bytes, rows: seq<Row>)
    requires |f| == |g| && Fits(rows, |f|)
    requires forall i, x: int :: 0 <= i < |rows| && rows[i].Covers(x) ==> f[x] == g[x]
    ensures Gather(f, rows) == Gather(g, rows)
  {
    if rows != [] {
      var n := |rows| - 1;
      FitsPrefix(rows, |f|, n);
      forall i, x: int | 0 <= i < n && rows[..n][i].Covers(x) ensures f[x] == g[x] {
        assert rows[i].Covers(x);
      }
      GatherReadsRowsOnly(f, g, rows[..n]);
      var row := rows[n];
      forall x | row.start <= x < row.start + row.width ensures f[x] == g[x] {
        assert row.Covers(x);
      }
      assert f[row.start..row.start + row.width] == g[row.start..row.start + row.width];
    }
  }

  /** A piece written apart from some rows leaves what they pack to, and can be read back. */
  lemma {:induction false} SpliceApart(frame: Bytes, rows: seq<Row>, row: Row, piece: Bytes)
    requires Fits(rows, |frame|) && row.start + row.width <= |frame| && |piece| == row.width
    requires forall i, x: int :: 0 <= i < |rows| && rows[i].Covers(x) ==> !row.Covers(x)
    ensures Gather(Splice(frame, row.start, piece), rows) == Gather(frame, rows)
    ensures Splice(frame, row.start, piece)[row.start..row.start + row.width] == piece
  {
    var after := Splice(frame, row.start, piece);
    forall i, x: int | 0 <= i < |rows| && rows[i].Covers(x) ensures after[x] == frame[x] {
      assert !row.Covers(x);
    }
    GatherReadsRowsOnly(after, frame, rows);
  }

  lemma DisjointPrefix(rows: seq<Row>, n: nat)
    requires DisjointRows(rows) && n < |rows|
    ensures DisjointRows(rows[..n])
    ensures forall i, x: int :: 0 <= i < n && rows[..n][i].Covers(x) ==> !rows[n].Covers(x)
  {
    var init := rows[..n];
    forall i, j, x: int | 0 <= i < j < n && init[i].Covers(x) ensures !init[j].Covers(x) {
      assert rows[i].Covers(x);
    }
    forall i, x: int | 0 <= i < n && init[i].Covers(x) ensures !rows[n].Covers(x) {
      assert rows[i].Covers(x);
    }
  }

  /** Writing packed bytes into a frame with disjoint rows and packing the frame again gives the
      same bytes. */
  lemma {:induction false} GatherAfterScatter(packed: Bytes, rows: seq<Row>, frame: Bytes)
    requires Fits(rows, |frame|) && |packed| == TotalWidth(rows) && DisjointRows(rows)
    ensures Gather(Scatter(packed, rows, frame), rows) == packed
    decreases rows
  {
    if rows != [] {
      var n := |rows| - 1;
      var row, init := rows[n], rows[..n];
      var done := TotalWidth(init);
      FitsPrefix(rows, |frame|, n);
      DisjointPrefix(rows, n);
      GatherAfterScatter(packed[..done], init, frame);
      SpliceApart(Scatter(packed[..done], init, frame), init, row, packed[done..]);
      assert packed == packed[..done] + packed[done..];
    }
  }

  lemma SpliceOwn(frame: Bytes, at: nat, count: nat)
    requires at + count <= |frame|
    ensures Splice(frame, at, frame[at..at + count]) == frame
  {
  }

  /** Writing a frame's own rows back changes nothing. */
  lemma {:induction false} ScatterAfterGather(rows: seq<Row>, frame: Bytes)
    requires Fits(rows, |frame|)
    ensures Scatter(Gather(frame, rows), rows, frame) == frame
  {
    if rows != [] {
      var n := |rows| - 1;
      var row := rows[n];
      FitsPrefix(rows, |frame|, n);
      ScatterAfterGather(rows[..n], frame);
      var inner, piece := Gather(frame, rows[..n]), frame[row.start..row.start + row.width];
      assert (inner + piece)[..|inner|] == inner && (inner + piece)[|inner|..] == piece;
      SpliceOwn(frame, row.start, row.width);
    }
  }

  // ---- Rows that overlap ----

  /** The packed position of byte `x` of row `i`. */
  function PackedAt(rows: seq<Row>, i: nat, x: nat): (p: nat)
    requires i < |rows| && rows[i].Covers(x)
    ensures p < TotalWidth(rows[..i + 1])
  {
    assert rows[..i + 1][..i] == rows[..i];
    TotalWidth(rows[..i]) + (x - rows[i].start)
  }

  lemma {:induction false} TotalWidthGrows(rows: seq<Row>, i: nat)
    requires i <= |rows|
    ensures TotalWidth(rows[..i]) <= TotalWidth(rows)
  {
    if i < |rows| {
      TotalWidthGrows(rows[..|rows| - 1], i);
      assert rows[..|rows| - 1][..i] == rows[..i];
    } else {
      assert rows[..i] == rows;
    }
  }

  lemma PackedAtInPrefix(rows: seq<Row>, n: nat, i: nat, x: nat)
    requires i < n <= |rows| && rows[i].Covers(x)
    ensures PackedAt(rows[..n], i, x) == PackedAt(rows, i, x)
  {
    assert rows[..n][..i] == rows[..i];
  }

  lemma {:induction false} GatherAt(frame: Bytes, rows: seq<Row>, i: nat, x: nat)
    requires Fits(rows, |frame|) && i < |rows| && rows[i].Covers(x)
    ensures PackedAt(rows, i, x) < TotalWidth(rows)
    ensures Gather(frame, rows)[PackedAt(rows, i, x)] == frame[x]
  {
    var n := |rows| - 1;
    FitsPrefix(rows, |frame|, n);
    var row, inner := rows[n], Gather(frame, rows[..n]);
    assert Gather(frame, rows) == inner + frame[row.start..row.start + row.width];
    if i < n {
      PackedAtInPrefix(rows, n, i, x);
      GatherAt(frame, rows[..n], i, x);
    } else {
      assert PackedAt(rows, i, x) == |inner| + (x - row.start);
    }
  }

  /** After a scatter a byte holds what the last row covering it got. */
  lemma {:induction false} ScatterAt(packed: Bytes, rows: seq<Row>, frame: Bytes, i: nat, x: nat)
    requires Fits(rows, |frame|) && |packed| == TotalWidth(rows)
    requires i < |rows| && rows[i].Covers(x) && forall j :: i < j < |rows| ==> !rows[j].Covers(x)
    ensures PackedAt(rows, i, x) < |packed|
    ensures Scatter(packed, rows, frame)[x] == packed[PackedAt(rows, i, x)]
    decreases rows
  {
    var n := |rows| - 1;
    var row, init, done := rows[n], rows[..n], TotalWidth(rows[..n]);
    FitsPrefix(rows, |frame|, n);
    var inner, outer := Scatter(packed[..done], init, frame), Scatter(packed, rows, frame);
    assert outer == Splice(inner, row.start, packed[done..]);
    if i < n {
      assert outer[x] == inner[x];
      PackedAtInPrefix(rows, n, i, x);
      ScatterAt(packed[..done], init, frame, i, x);
    } else {
      assert rows[..i + 1] == rows;
      assert PackedAt(rows, i, x) == done + (x - row.start);
    }
  }

  lemma LastCovering(rows: seq<Row>, j: nat, x: nat) returns (last: nat)
    requires j < |rows| && rows[j].Covers(x)
    ensures j <= last < |rows| && rows[last].Covers(x) && forall k :: last < k < |rows| ==> !rows[k].Covers(x)
    decreases |rows| - j
  {
    if k :| j < k < |rows| && rows[k].Covers(x) {
      last := LastCovering(rows, k, x);
    } else {
      last := j;
    }
  }

  /** Two rows that share a byte lose information: some packed bytes do not come back. */
  lemma OverlapLosesData(rows: seq<Row>, frame: Bytes, i: nat, j: nat, x: nat) returns (packed: Bytes)
    requires Fits(rows, |frame|) && i < j < |rows| && rows[i].Covers(x) && rows[j].Covers(x)
    ensures |packed| == TotalWidth(rows) && Gather(Scatter(packed, rows, frame), rows) != packed
  {
    var last := LastCovering(rows, j, x);
    var p, q := PackedAt(rows, i, x), PackedAt(rows, last, x);
    assert p < q by {
      TotalWidthGrows(rows[..last], i + 1);
      assert rows[..last][..i + 1] == rows[..i + 1];
    }
    TotalWidthGrows(rows, last + 1);
    packed := seq(TotalWidth(rows), k => if k == p then 1 else 0);
    ScatterAt(packed, rows, frame, last, x);
    GatherAt(Scatter(packed, rows, frame), rows, i, x);
  }

  /** The padding can be removed and restored without loss exactly when no two rows overlap. */
  lemma LosslessIffDisjoint(rows: seq<Row>, frame: Bytes)
    requires Fits(rows, |frame|)
    ensures DisjointRows(rows) <==>
            forall packed: Bytes :: |packed| == TotalWidth(rows) ==>
              Gather(Scatter(packed, rows, frame), rows) == packed
  {
    if DisjointRows(rows) {
      forall packed: Bytes | |packed| == TotalWidth(rows) {
        GatherAfterScatter(packed, rows, frame);
      }
    } else {
      var i, j, x: int :| 0 <= i < j < |rows| && rows[i].Covers(x) && rows[j].Covers(x);
      var packed := OverlapLosesData(rows, frame, i, j, x);
    }
  }

  // ---- Layouts ----

  /** One past the last byte of a plane's last row. */
  function End(layout: seq<Plane>, i: nat): (e: nat)
    requires i < |layout|
  {
    var n := RowCount(layout, i);
    if n == 0 then Base(layout, i) else Base(layout, i) + (n - 1) * layout[i].stride + layout[i].width
  }

  /** Rows do not reach into the next row, and planes do not share bytes. */
  ghost predicate GoodLayout(layout: seq<Plane>) {
    && (forall i :: 0 <= i < |layout| ==> layout[i].stride >= layout[i].width)
    && (forall i, j :: 0 <= i < j < |layout| ==>
          End(layout, i) <= Base(layout, j) || End(layout, j) <= Base(layout, i))
  }

  lemma RowWithinPlane(layout: seq<Plane>, i: nat, k: nat)
    requires i < |layout| && k < RowCount(layout, i)
    ensures Base(layout, i) <= Base(layout, i) + k * layout[i].stride
    ensures Base(layout, i) + k * layout[i].stride + layout[i].width <= End(layout, i)
  {
    var n := RowCount(layout, i);
    assert k * layout[i].stride <= (n - 1) * layout[i].stride;
  }

  lemma RowsApart(layout: seq<Plane>, i: nat, j: nat, k: nat)
    requires i < |layout| && layout[i].stride >= layout[i].width && j < k
    ensures Base(layout, i) + j * layout[i].stride + layout[i].width <= Base(layout, i) + k * layout[i].stride
  {
    assert (j + 1) * layout[i].stride <= k * layout[i].stride;
    assert (j + 1) * layout[i].stride == j * layout[i].stride + layout[i].stride;
  }

  /** Which plane a row belongs to. */
  lemma {:induction false} RowComesFrom(layout: seq<Plane>, n: nat, r: nat) returns (i: nat, k: nat)
    requires n <= |layout| && r < |RowsOf(layout, n)|
    ensures i < n && k < RowCount(layout, i)
    ensures RowsOf(layout, n)[r] == Row(RowStart(layout, i, k), layout[i].width)
  {
    var before := RowsOf(layout, n - 1);
    if r < |before| {
      i, k := RowComesFrom(layout, n - 1, r);
    } else {
      i, k := n - 1, r - |before|;
    }
  }

  /** A good layout, with any number of planes, has disjoint rows. */
  lemma {:induction false} GoodLayoutIsDisjoint(layout: seq<Plane>, n: nat)
    requires n <= |layout| && GoodLayout(layout)
    ensures DisjointRows(RowsOf(layout, n))
  {
    if n > 0 {
      GoodLayoutIsDisjoint(layout, n - 1);
      var before, plane := RowsOf(layout, n - 1), RowsOfPlane(layout, n - 1, RowCount(layout, n - 1));
      var rows := RowsOf(layout, n);
      assert rows == before + plane;
      forall a, b, x: int | 0 <= a < b < |rows| && rows[a].Covers(x) ensures !rows[b].Covers(x) {
        if b < |before| {
          assert before[a].Covers(x);
        } else if a >= |before| {
          RowsApart(layout, n - 1, a - |before|, b - |before|);
        } else {
          var i, k := RowComesFrom(layout, n - 1, a);
          assert rows[a] == before[a];
          RowWithinPlane(layout, i, k);
          RowWithinPlane(layout, n - 1, b - |before|);
        }
      }
    }
  }

  /** Packing and restoring a frame of a good layout, with two or any number of planes: packed bytes
      come back unchanged, bytes outside the rows stay as they are, and a frame restored from its
      own packed bytes is unchanged as a whole. */
  lemma PaddingIsLossless(layout: seq<Plane>, packed: Bytes, frame: Bytes)
    requires GoodLayout(layout)
    requires Fits(RowsOf(layout, |layout|), |frame|) && |packed| == TotalWidth(RowsOf(layout, |layout|))
    ensures var rows := RowsOf(layout, |layout|);
            && Gather(Scatter(packed, rows, frame), rows) == packed
            && Scatter(Gather(frame, rows), rows, frame) == frame
            && forall x :: 0 <= x < |frame| && (forall i :: 0 <= i < |rows| ==> !rows[i].Covers(x)) ==>
                 Scatter(packed, rows, frame)[x] == frame[x]
  {
    var rows := RowsOf(layout, |layout|);
    GoodLayoutIsDisjoint(layout, |layout|);
    GatherAfterScatter(packed, rows, frame);
    ScatterAfterGather(rows, frame);
    forall x | 0 <= x < |frame| && forall i :: 0 <= i < |rows| ==> !rows[i].Covers(x) {
      ScatterKeepsPadding(packed, rows, frame, x);
    }
  }

  // ---- The two loops ----

  method CopyBytes(src: array<Byte>, from: nat, dst: array<Byte>, to: nat, count: nat)
    requires src != dst && from + count <= src.Length && to + count <= dst.Length
    modifies dst
    ensures dst[..] == Splice(old(dst[..]), to, src[from..from + count])
  {
    forall k | 0 <= k < count {
      dst[to + k] := src[from + k];
    }
  }

  lemma {:induction false} TotalWidthSnoc(rows: seq<Row>, row: Row)
    ensures TotalWidth(rows + [row]) == TotalWidth(rows) + row.width
  {
    assert (rows + [row])[..|rows|] == rows;
  }

  lemma {:induction false} GatherSnoc(frame: Bytes, rows: seq<Row>, row: Row)
    requires Fits(rows + [row], |frame|) && Fits(rows, |frame|) && row.start + row.width <= |frame|
    ensures Gather(frame, rows + [row]) == Gather(frame, rows) + frame[row.start..row.start + row.width]
  {
    assert (rows + [row])[..|rows|] == rows;
  }

  lemma {:induction false} ScatterSnoc(packed: Bytes, rows: seq<Row>, row: Row, frame: Bytes)
    requires Fits(rows + [row], |frame|) && Fits(rows, |frame|) && row.start + row.width <= |frame|
    requires TotalWidth(rows) + row.width <= |packed| && TotalWidth(rows + [row]) == TotalWidth(rows) + row.width
    ensures Scatter(packed[..TotalWidth(rows) + row.width], rows + [row], frame) ==
            Splice(Scatter(packed[..TotalWidth(rows)], rows, frame), row.start,
                   packed[TotalWidth(rows)..TotalWidth(rows) + row.width])
  {
    var t := TotalWidth(rows);
    assert (rows + [row])[..|rows|] == rows;
    assert packed[..t + row.width][..t] == packed[..t];
    assert packed[..t + row.width][t..] == packed[t..t + row.width];
  }

  lemma {:induction false} SpliceSnoc(b: Bytes, p: Bytes, q: Bytes)
    requires |p| + |q| <= |b|
    ensures Splice(Splice(b, 0, p), |p|, q) == Splice(b, 0, p + q)
  {
  }

  lemma {:induction false} RowsOfPrefix(layout: seq<Plane>, i: nat, n: nat)
    requires i <= n <= |layout|
    ensures RowsOf(layout, i) <= RowsOf(layout, n)
  {
    if i < n {
      RowsOfPrefix(layout, i, n - 1);
    }
  }

  /** The rows copied when the loops are at row `j` of plane `i`. */
  function Copied(layout: seq<Plane>, i: nat, j: nat): (rows: seq<Row>)
    requires i < |layout| && j <= RowCount(layout, i)
  {
    RowsOf(layout, i) + RowsOfPlane(layout, i, j)
  }

  lemma {:induction false} CopiedIsPrefix(layout: seq<Plane>, i: nat, j: nat)
    requires i < |layout| && j <= RowCount(layout, i)
    ensures Copied(layout, i, j) <= RowsOf(layout, |layout|)
  {
    RowsOfPrefix(layout, i + 1, |layout|);
    var a, plane, b := RowsOf(layout, i), RowsOfPlane(layout, i, RowCount(layout, i)), RowsOfPlane(layout, i, j);
    assert b <= plane;
    assert RowsOf(layout, i + 1) == a + plane;
    assert a + b <= a + plane;
  }

  lemma {:induction false} CopiedSnoc(layout: seq<Plane>, i: nat, j: nat, row: Row)
    requires i < |layout| && j < RowCount(layout, i)
    requires row == Row(RowStart(layout, i, j), layout[i].width)
    ensures Copied(layout, i, j + 1) == Copied(layout, i, j) + [row]
  {
    var a, b, c := RowsOf(layout, i), RowsOfPlane(layout, i, j), RowsOfPlane(layout, i, j + 1);
    assert c[..j] == b && c[j] == row;
    assert c == c[..j] + [c[j]];
    assert a + (b + [row]) == (a + b) + [row];
  }

  /** The next row of the loops: it extends what was copied by one row, and it fits. */
  lemma {:induction false} NextRow(layout: seq<Plane>, i: nat, j: nat, size: nat, row: Row)
    requires i < |layout| && j < RowCount(layout, i) && Fits(RowsOf(layout, |layout|), size)
    requires row == Row(RowStart(layout, i, j), layout[i].width)
    ensures Copied(layout, i, j + 1) == Copied(layout, i, j) + [row]
    ensures Fits(Copied(layout, i, j), size) && Fits(Copied(layout, i, j + 1), size) && row.start + row.width <= size
    ensures TotalWidth(Copied(layout, i, j + 1)) == TotalWidth(Copied(layout, i, j)) + row.width
    ensures TotalWidth(Copied(layout, i, j + 1)) <= TotalWidth(RowsOf(layout, |layout|))
  {
    var all, now, next := RowsOf(layout, |layout|), Copied(layout, i, j), Copied(layout, i, j + 1);
    CopiedSnoc(layout, i, j, row);
    CopiedIsPrefix(layout, i, j + 1);
    assert all[..|next|] == next && all[|now|] == row;
    FitsPrefix(all, size, |next|);
    TotalWidthGrows(all, |next|);
    TotalWidthSnoc(now, row);
  }

  /** `packed` begins with the given rows of `frame`; the rest is as in `before`. */
  ghost predicate PackedRows(packed: Bytes, frame: Bytes, rows: seq<Row>, offsetW: nat, before: Bytes) {
    && Fits(rows, |frame|) && offsetW == TotalWidth(rows) <= |before|
    && packed == Splice(before, 0, Gather(frame, rows))
  }

  lemma {:induction false} PackedOneMore(packed: Bytes, packed': Bytes, frame: Bytes, rows: seq<Row>, offsetW: nat,
                                         before: Bytes, row: Row)
    requires PackedRows(packed, frame, rows, offsetW, before)
    requires Fits(rows + [row], |frame|) && row.start + row.width <= |frame| && offsetW + row.width <= |packed|
    requires packed' == Splice(packed, offsetW, frame[row.start..row.start + row.width])
    ensures PackedRows(packed', frame, rows + [row], offsetW + row.width, before)
  {
    TotalWidthSnoc(rows, row);
    GatherSnoc(frame, rows, row);
    SpliceSnoc(before, Gather(frame, rows), frame[row.start..row.start + row.width]);
  }

  /** `frame` is `before` with the given rows taken from the beginning of `packed`. */
  ghost predicate RestoredRows(frame: Bytes, packed: Bytes, rows: seq<Row>, offsetW: nat, before: Bytes) {
    && Fits(rows, |before|) && offsetW == TotalWidth(rows) <= |packed|
    && frame == Scatter(packed[..offsetW], rows, before)
  }

  lemma {:induction false} RestoredOneMore(frame: Bytes, frame': Bytes, packed: Bytes, rows: seq<Row>, offsetW: nat,
                                           before: Bytes, row: Row)
    requires RestoredRows(frame, packed, rows, offsetW, before)
    requires Fits(rows + [row], |before|) && row.start + row.width <= |frame| && offsetW + row.width <= |packed|
    requires frame' == Splice(frame, row.start, packed[offsetW..offsetW + row.width])
    ensures RestoredRows(frame', packed, rows + [row], offsetW + row.width, before)
  {
    TotalWidthSnoc(rows, row);
    ScatterSnoc(packed, rows, row, before);
  }

  lemma {:induction false} CopiedPlane(layout: seq<Plane>, i: nat)
    requires i < |layout|
    ensures Copied(layout, i, 0) == RowsOf(layout, i)
    ensures Copied(layout, i, RowCount(layout, i)) == RowsOf(layout, i + 1)
  {
  }

  lemma NextRowStart(layout: seq<Plane>, i: nat, j: nat)
    requires i < |layout|
    ensures RowStart(layout, i, j + 1) == RowStart(layout, i, j) + layout[i].stride
  {
  }

  /** One row of the packing. */
  method PackRow(src: array<Byte>, dst: array<Byte>, index: nat, offsetW: nat, width: nat,
                 ghost copied: seq<Row>, ghost before: Bytes)
    requires src != dst && PackedRows(dst[..], src[..], copied, offsetW, before)
    requires Fits(copied + [Row(index, width)], src.Length) && index + width <= src.Length
    requires offsetW + width <= |before| == dst.Length
    modifies dst
    ensures PackedRows(dst[..], src[..], copied + [Row(index, width)], offsetW + width, before)
  {
    ghost var was, frame := dst[..], src[..];
    var row := Row(index, width);
    assert frame[row.start..row.start + row.width] == src[index..index + width];
    PackedOneMore(was, Splice(was, offsetW, frame[row.start..row.start + row.width]), frame, copied, offsetW,
                  before, row);
    CopyBytes(src, index, dst, offsetW, width);
    assert src[..] == frame;
  }

  method RestoreRow(src: array<Byte>, dst: array<Byte>, index: nat, offsetW: nat, width: nat,
                    ghost copied: seq<Row>, ghost before: Bytes)
    requires src != dst && RestoredRows(dst[..], src[..], copied, offsetW, before)
    requires Fits(copied + [Row(index, width)], |before|) && offsetW + width <= src.Length
    requires index + width <= |before| == dst.Length
    modifies dst
    ensures RestoredRows(dst[..], src[..], copied + [Row(index, width)], offsetW + width, before)
  {
    ghost var was, packed := dst[..], src[..];
    CopyBytes(src, offsetW, dst, index, width);
    assert packed[offsetW..offsetW + width] == src[offsetW..offsetW + width] && packed == src[..];
    RestoredOneMore(was, dst[..], packed, copied, offsetW, before, Row(index, width));
  }

  /** The body of the packing's inner loop: row `j` of plane `i`. */
  method PackNext(src: array<Byte>, dst: array<Byte>, ghost layout: seq<Plane>, ghost i: nat, ghost j: nat,
                  index: nat, offsetW: nat, width: nat, ghost before: Bytes)
    requires src != dst && i < |layout| && j < RowCount(layout, i) && |before| == dst.Length
    requires Fits(RowsOf(layout, |layout|), src.Length) && TotalWidth(RowsOf(layout, |layout|)) <= |before|
    requires index == RowStart(layout, i, j) && width == layout[i].width
    requires PackedRows(dst[..], src[..], Copied(layout, i, j), offsetW, before)
    modifies dst
    ensures PackedRows(dst[..], src[..], Copied(layout, i, j + 1), offsetW + width, before)
  {
    NextRow(layout, i, j, src.Length, Row(index, width));
    PackRow(src, dst, index, offsetW, width, Copied(layout, i, j), before);
  }

  /** The body of the restoring's inner loop. */
  method RestoreNext(src: array<Byte>, dst: array<Byte>, ghost layout: seq<Plane>, ghost i: nat, ghost j: nat,
                     index: nat, offsetW: nat, width: nat, ghost before: Bytes)
    requires src != dst && i < |layout| && j < RowCount(layout, i) && |before| == dst.Length
    requires Fits(RowsOf(layout, |layout|), |before|) && TotalWidth(RowsOf(layout, |layout|)) <= src.Length
    requires index == RowStart(layout, i, j) && width == layout[i].width
    requires RestoredRows(dst[..], src[..], Copied(layout, i, j), offsetW, before)
    modifies dst
    ensures RestoredRows(dst[..], src[..], Copied(layout, i, j + 1), offsetW + width, before)
  {
    NextRow(layout, i, j, |before|, Row(index, width));
    RestoreRow(src, dst, index, offsetW, width, Copied(layout, i, j), before);
  }

  /** The inner loop of the packing, for plane `i`. */
  method PackPlane(src: array<Byte>, dst: array<Byte>, layout: seq<Plane>, i: nat, offset: nat, ghost before: Bytes)
    returns (offsetW: nat)
    requires src != dst && i < |layout| && |before| == dst.Length
    requires Fits(RowsOf(layout, |layout|), src.Length) && TotalWidth(RowsOf(layout, |layout|)) <= |before|
    requires PackedRows(dst[..], src[..], RowsOf(layout, i), offset, before)
    modifies dst
    ensures PackedRows(dst[..], src[..], RowsOf(layout, i + 1), offsetW, before)
  {
    offsetW := offset;
    var index: nat := layout[i].offset;
    var rows: nat := layout[i].height;
    var width: nat, stride: nat := layout[i].width, layout[i].stride;
    if i > 0 {
      index := index + layout[i - 1].len;
      rows := layout[i - 1].height / 2;
    }
    CopiedPlane(layout, i);
    for j := 0 to rows
      invariant index == RowStart(layout, i, j)
      invariant PackedRows(dst[..], src[..], Copied(layout, i, j), offsetW, before)
    {
      PackNext(src, dst, layout, i, j, index, offsetW, width, before);
      offsetW := offsetW + width;
      NextRowStart(layout, i, j);
      index := index + stride;
    }
  }

  /** Packs a frame. -1 for a null buffer; otherwise `dst` begins with the rows of `src`. */
  method YuvDataRelocate(src: array?<Byte>, dst: array?<Byte>, layout: seq<Plane>) returns (ret: int)
    requires src != null && dst != null ==>
               src != dst && Fits(RowsOf(layout, |layout|), src.Length)
               && TotalWidth(RowsOf(layout, |layout|)) <= dst.Length
    modifies dst
    ensures ret == if src == null || dst == null then -1 else 0
    ensures ret == 0 ==> dst[..] == Splice(old(dst[..]), 0, Gather(src[..], RowsOf(layout, |layout|)))
    ensures ret != 0 && dst != null ==> dst[..] == old(dst[..])
  {
    if src == null || dst == null {
      return -1;
    }
    ghost var before := dst[..];
    var offsetW: nat := 0;
    for i := 0 to |layout|
      invariant PackedRows(dst[..], src[..], RowsOf(layout, i), offsetW, before)
    {
      offsetW := PackPlane(src, dst, layout, i, offsetW, before);
    }
    return 0;
  }

  /** The inner loop of the restoring, for plane `i`. */
  method RestorePlane(src: array<Byte>, dst: array<Byte>, layout: seq<Plane>, i: nat, offset: nat, ghost before: Bytes)
    returns (offsetW: nat)
    requires src != dst && i < |layout| && |before| == dst.Length
    requires Fits(RowsOf(layout, |layout|), |before|) && TotalWidth(RowsOf(layout, |layout|)) <= src.Length
    requires RestoredRows(dst[..], src[..], RowsOf(layout, i), offset, before)
    modifies dst
    ensures RestoredRows(dst[..], src[..], RowsOf(layout, i + 1), offsetW, before)
  {
    offsetW := offset;
    var index: nat := layout[i].offset;
    var rows: nat := layout[i].height;
    var width: nat, stride: nat := layout[i].width, layout[i].stride;
    if i > 0 {
      index := index + layout[i - 1].len;
      rows := layout[i - 1].height / 2;
    }
    CopiedPlane(layout, i);
    for j := 0 to rows
      invariant index == RowStart(layout, i, j)
      invariant RestoredRows(dst[..], src[..], Copied(layout, i, j), offsetW, before)
    {
      RestoreNext(src, dst, layout, i, j, index, offsetW, width, before);
      offsetW := offsetW + width;
      NextRowStart(layout, i, j);
      index := index + stride;
    }
  }

  /** Restores a frame from packed bytes. -1 for a null buffer. */
  method YuvDataRecover(src: array?<Byte>, dst: array?<Byte>, layout: seq<Plane>) returns (ret: int)
    requires src != null && dst != null ==>
               src != dst && Fits(RowsOf(layout, |layout|), dst.Length)
               && TotalWidth(RowsOf(layout, |layout|)) <= src.Length
    modifies dst
    ensures ret == if src == null || dst == null then -1 else 0
    ensures ret == 0 ==>
              var rows := RowsOf(layout, |layout|);
              dst[..] == Scatter(src[..TotalWidth(rows)], rows, old(dst[..]))
    ensures ret != 0 && dst != null ==> dst[..] == old(dst[..])
  {
    if src == null || dst == null {
      return -1;
    }
    ghost var before := dst[..];
    var offsetW: nat := 0;
    for i := 0 to |layout|
      invariant RestoredRows(dst[..], src[..], RowsOf(layout, i), offsetW, before)
    {
      offsetW := RestorePlane(src, dst, layout, i, offsetW, before);
    }
    assert src[..][..offsetW] == src[..offsetW];
    return 0;
  }
}
