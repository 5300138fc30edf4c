/**
 * interpolateField of the app module: for every second pixel column x from bounds.x
 * and every second row y from bounds.y, a visible mask pixel is projected back to
 * (longitude, latitude), the wind there is sampled and distorted into pixel space,
 * and the overlay colour is painted into the 2 x 2 block at (x, y). The work runs in
 * batches that yield when the time budget is spent and stop once the task is
 * cancelled.
 *
 * The projection's invert, the grids' interpolate functions, the distortion tensor and
 * the overlay gradient are inputs (Env); each may throw, which rejects the task.
 */
module FieldBuilders {
  import opened Values
  import opened Globes
  import opened Masks
  import opened Fields

  /** OVERLAY_ALPHA: Math.floor(0.4 * 255). */
  const OverlayAlpha: byte := 102

  /** The constant is Math.floor(0.4 * 255). */
  lemma OverlayAlphaIsFloor()
    ensures OverlayAlpha as int == (0.4 * 255.0).Floor
  {
  }

  /** A wind sample [u, v, magnitude] from the primary grid. */
  datatype Sample = Sample(u: real, v: real, m: real)

  /** The distortion tensor [du/dx, dv/dx, du/dy, dv/dy] at a point. */
  type Tensor = (real, real, real, real)

  /** What interpolateField calls out to. */
  datatype Env = Env(
    invert: (int, int) -> Result<Option<(JsNumber, real)>>,    // projection.invert([x, y])
    interpolate: (real, real) -> Result<Option<Sample>>,        // primaryGrid.interpolate
    distortion: (real, real, int, int) -> Result<Tensor>,       // distortion(projection, λ, φ, x, y)
    velocityScale: real,                                        // bounds.height * velocityScale
    overlay: Option<(real, real) -> Result<Option<real>>>,      // overlayGrid.interpolate, when distinct
    gradient: (real, byte) -> Result<Rgba>)                     // overlayGrid.scale.gradient

  /** distort: scale the wind, then map it through the distortion tensor; the magnitude is kept. */
  function Distort(d: Tensor, scale: real, wind: Sample): (r: Sample)
    ensures r.m == wind.m
  {
    var u := wind.u * scale;
    var v := wind.v * scale;
    Sample(d.0 * u + d.2 * v, d.1 * u + d.3 * v, wind.m)
  }

  /** Under the identity tensor distort only scales u and v. */
  lemma DistortIdentity(scale: real, wind: Sample)
    ensures Distort((1.0, 0.0, 0.0, 1.0), scale, wind) == Sample(wind.u * scale, wind.v * scale, wind.m)
  {
  }

  /** distort is linear in the wind: it maps the sum of two winds to the sum of their images. */
  lemma DistortAdditive(d: Tensor, scale: real, a: Sample, b: Sample)
    ensures var sum := Distort(d, scale, Sample(a.u + b.u, a.v + b.v, a.m));
            var da, db := Distort(d, scale, a), Distort(d, scale, b);
            sum.u == da.u + db.u && sum.v == da.v + db.v
  {
    var ua, va, ub, vb := a.u * scale, a.v * scale, b.u * scale, b.v * scale;
    assert (a.u + b.u) * scale == ua + ub && (a.v + b.v) * scale == va + vb;
    assert d.0 * (ua + ub) + d.2 * (va + vb) == (d.0 * ua + d.2 * va) + (d.0 * ub + d.2 * vb);
    assert d.1 * (ua + ub) + d.3 * (va + vb) == (d.1 * ua + d.3 * va) + (d.1 * ub + d.3 * vb);
  }

  /**
   * The body of the row loop for a visible pixel: the entry to store (the distorted
   * wind, or HOLE_VECTOR) and the colour to paint (TRANSPARENT_BLACK unless a scalar is
   * found). Calls happen in the source's order, and the first exception wins.
   */
  function PixelOutcome(env: Env, x: int, y: int): (r: Result<(Vector, Rgba)>)
    ensures r.Success? && env.overlay.None? && r.value.0.Hole? ==> r.value.1 == TransparentBlack
  {
    var coord :- env.invert(x, y);
    if coord.None? || !coord.value.0.Num? then Success((Hole, TransparentBlack))
    else
      var lon, lat := coord.value.0.r, coord.value.1;
      var sample :- env.interpolate(lon, lat);
      var wind :- (if sample.None? then Success(None)
                   else var d :- env.distortion(lon, lat, x, y);
                        Success(Some(Distort(d, env.velocityScale, sample.value))));
      var scalar :- (if env.overlay.Some? then env.overlay.value(lon, lat)
                     else Success(if wind.Some? then Some(wind.value.m) else None));
      var color :- (if scalar.Some? then env.gradient(scalar.value, OverlayAlpha) else Success(TransparentBlack));
      Success((if wind.Some? then Wind(wind.value.u, wind.value.v, wind.value.m) else Hole, color))
  }

  /** The mask writes of one visible pixel: the same colour at (x..x+1, y..y+1). */
  function PaintBlock(data: seq<byte>, width: int, x: int, y: int, c: Rgba): (r: seq<byte>)
    ensures |r| == |data|
  {
    SetPixel(SetPixel(SetPixel(SetPixel(data, width, x, y, c), width, x + 1, y, c), width, x, y + 1, c),
             width, x + 1, y + 1, c)
  }

  /** Byte k is one of the sixteen bytes of the block (x..x+1, y..y+1). */
  predicate InBlock(width: int, x: int, y: int, k: int)
  {
    InPixel(width, x, y, k) || InPixel(width, x + 1, y, k) || InPixel(width, x, y + 1, k)
    || InPixel(width, x + 1, y + 1, k)
  }

  /** Painting a block, byte by byte: a byte of the block gets its component of c, and every other byte stays. */
  lemma PaintBlockWrites(data: seq<byte>, width: int, x: int, y: int, c: Rgba)
    ensures BlockWritten(PaintBlock(data, width, x, y, c), data, width, x, y, c)
  {
    var d1 := SetPixel(data, width, x, y, c);
    var d2 := SetPixel(d1, width, x + 1, y, c);
    var d3 := SetPixel(d2, width, x, y + 1, c);
    SetPixelBytes(data, width, x, y, c);
    SetPixelBytes(d1, width, x + 1, y, c);
    SetPixelBytes(d2, width, x, y + 1, c);
    SetPixelBytes(d3, width, x + 1, y + 1, c);
  }

  /** r is data with each byte of the block (x..x+1, y..y+1) set to its component of c. */
  predicate BlockWritten(r: seq<byte>, data: seq<byte>, width: int, x: int, y: int, c: Rgba)
  {
    |r| == |data| && forall k :: 0 <= k < |data| ==> r[k] == (if InBlock(width, x, y, k) then Channel(c, k % 4) else data[k])
  }

  /** Painting a block: each of its four pixels holds c. */
  lemma PaintBlockColors(data: seq<byte>, width: int, x: int, y: int, c: Rgba, qx: int, qy: int)
    requires x <= qx <= x + 1 && y <= qy <= y + 1
    ensures HasColor(PaintBlock(data, width, x, y, c), width, qx, qy, c)
  {
    PaintBlockWrites(data, width, x, y, c);
    BlockBytesColors(PaintBlock(data, width, x, y, c), data, width, x, y, c, qx, qy);
  }

  /** Bytes written as painting the block writes them give each of its four pixels the colour c. */
  lemma BlockBytesColors(r: seq<byte>, data: seq<byte>, width: int, x: int, y: int, c: Rgba, qx: int, qy: int)
    requires |r| == |data|
    requires forall k :: 0 <= k < |data| ==> r[k] == (if InBlock(width, x, y, k) then Channel(c, k % 4) else data[k])
    requires x <= qx <= x + 1 && y <= qy <= y + 1
    ensures HasColor(r, width, qx, qy, c)
  {
    forall k | 0 <= k < |r| && InPixel(width, qx, qy, k)
      ensures r[k] == Channel(c, k % 4)
    {
      assert InBlock(width, x, y, k);
    }
    ColorFromBytes(r, width, qx, qy, c);
  }

  /** A pixel holds c when each of its bytes inside the buffer holds c's component. */
  lemma ColorFromBytes(r: seq<byte>, width: int, qx: int, qy: int, c: Rgba)
    requires forall k :: 0 <= k < |r| && InPixel(width, qx, qy, k) ==> r[k] == Channel(c, k % 4)
    ensures HasColor(r, width, qx, qy, c)
  {
    var n := qy * width + qx;
    var i := PixelOffset(width, qx, qy);
    assert i == n * 4;
    OffsetChannel(n, 0);
    OffsetChannel(n, 1);
    OffsetChannel(n, 2);
    OffsetChannel(n, 3);
    assert InPixel(width, qx, qy, i) && InPixel(width, qx, qy, i + 1);
    assert InPixel(width, qx, qy, i + 2) && InPixel(width, qx, qy, i + 3);
  }

  /** Byte j of a pixel whose offset is 4 n is channel j. */
  lemma OffsetChannel(n: int, j: int)
    requires 0 <= j < 4
    ensures (n * 4 + j) % 4 == j
  {
  }

  /** Painting a block: every pixel outside it, of a column in [0, width), reads as before. */
  lemma PaintBlockKeeps(data: seq<byte>, width: int, x: int, y: int, c: Rgba, qx: int, qy: int)
    requires 0 <= x && x + 1 < width && 0 <= qx < width
    requires !(x <= qx <= x + 1 && y <= qy <= y + 1)
    ensures PixelRead(PaintBlock(data, width, x, y, c), width, qx, qy) == PixelRead(data, width, qx, qy)
  {
    PaintBlockWrites(data, width, x, y, c);
    BlockBytesKeep(PaintBlock(data, width, x, y, c), data, width, x, y, c, qx, qy);
  }

  /** Bytes written as painting the block writes them leave every pixel outside it reading as before. */
  lemma BlockBytesKeep(r: seq<byte>, data: seq<byte>, width: int, x: int, y: int, c: Rgba, qx: int, qy: int)
    requires |r| == |data|
    requires forall k :: 0 <= k < |data| ==> r[k] == (if InBlock(width, x, y, k) then Channel(c, k % 4) else data[k])
    requires 0 <= x && x + 1 < width && 0 <= qx < width
    requires !(x <= qx <= x + 1 && y <= qy <= y + 1)
    ensures PixelRead(r, width, qx, qy) == PixelRead(data, width, qx, qy)
  {
    var i := PixelOffset(width, qx, qy);
    OutsideBlock(width, x, y, qx, qy);
    assert InPixel(width, qx, qy, i) && InPixel(width, qx, qy, i + 1);
    assert InPixel(width, qx, qy, i + 2) && InPixel(width, qx, qy, i + 3);
  }

  /** The bytes of a pixel outside a block are none of the block's bytes. */
  lemma OutsideBlock(width: int, x: int, y: int, qx: int, qy: int)
    requires 0 <= x && x + 1 < width && 0 <= qx < width
    requires !(x <= qx <= x + 1 && y <= qy <= y + 1)
    ensures forall k :: InPixel(width, qx, qy, k) ==> !InBlock(width, x, y, k)
  {
    PixelsDisjoint(width, x, y, qx, qy);
    PixelsDisjoint(width, x + 1, y, qx, qy);
    PixelsDisjoint(width, x, y + 1, qx, qy);
    PixelsDisjoint(width, x + 1, y + 1, qx, qy);
  }

  /** Painting a block leaves every pixel outside it as visible as it was. */
  lemma PaintBlockFrame(data: seq<byte>, width: int, x: int, y: int, c: Rgba, qx: int, qy: int)
    requires 0 <= x && x + 1 < width && 0 <= qx < width
    requires !(x <= qx <= x + 1 && y <= qy <= y + 1)
    ensures Visible(PaintBlock(data, width, x, y, c), width, qx, qy) == Visible(data, width, qx, qy)
  {
    PaintBlockKeeps(data, width, x, y, c, qx, qy);
    ReadSameVisible(data, PaintBlock(data, width, x, y, c), width, qx, qy);
  }

  /** A column under construction, the mask bytes, and the exception that stopped it, if any. */
  datatype ColumnState = ColumnState(col: map<int, Vector>, data: seq<byte>, fault: Option<Error>)

  /** The row loop of interpolateColumn(x) from row y on, over y, y + 2, ... <= bounds.yMax. */
  function ColumnFrom(env: Env, width: int, b: Bounds, x: int, y: int, col: map<int, Vector>, data: seq<byte>)
    : (r: ColumnState)
    ensures |r.data| == |data|
    decreases b.yMax - y + 2
  {
    if y > b.yMax then ColumnState(col, data, None)
    else if Visible(data, width, x, y) && PixelOutcome(env, x, y).Failure? then
      ColumnState(col, data, Some(PixelOutcome(env, x, y).error))
    else
      var (col', data') := StepResult(env, width, x, y, col, data);
      ColumnFrom(env, width, b, x, y + 2, col', data')
  }

  /**
   * The row at y, when it does not throw: a visible pixel stores its entry at y and
   * y + 1 and paints its block; an invisible one changes nothing.
   */
  function StepResult(env: Env, width: int, x: int, y: int, col: map<int, Vector>, data: seq<byte>)
    : (r: (map<int, Vector>, seq<byte>))
    ensures |r.1| == |data|
  {
    if Visible(data, width, x, y) && PixelOutcome(env, x, y).Success? then
      var v, c := PixelOutcome(env, x, y).value.0, PixelOutcome(env, x, y).value.1;
      (col[y + 1 := v][y := v], PaintBlock(data, width, x, y, c))
    else (col, data)
  }

  /** One row of the loop, unfolded. */
  lemma ColumnFromUnfold(env: Env, width: int, b: Bounds, x: int, y: int, col: map<int, Vector>, data: seq<byte>)
    requires y <= b.yMax
    requires Visible(data, width, x, y) ==> PixelOutcome(env, x, y).Success?
    ensures var (col', data') := StepResult(env, width, x, y, col, data);
            ColumnFrom(env, width, b, x, y, col, data) == ColumnFrom(env, width, b, x, y + 2, col', data')
  {
  }

  /** The column table, the mask bytes, and the exception that stopped the build, if any. */
  datatype BuildState = BuildState(columns: Columns, data: seq<byte>, fault: Option<Error>)

  /** interpolateColumn(x): the column is stored at x and x + 1 once its loop completes. */
  function ColumnAt(env: Env, width: int, b: Bounds, x: int, s: BuildState): (r: BuildState)
    ensures |r.data| == |s.data|
  {
    var c := ColumnFrom(env, width, b, x, b.y, map[], s.data);
    if c.fault.Some? then BuildState(s.columns, c.data, c.fault)
    else BuildState(s.columns[x + 1 := c.col][x := c.col], c.data, None)
  }

  /** The column loop from x on, over x, x + 2, ... < bounds.xMax, without yielding. */
  function BuildFrom(env: Env, width: int, b: Bounds, x: int, s: BuildState): (r: BuildState)
    ensures |r.data| == |s.data|
    decreases b.xMax - x + 2
  {
    if x >= b.xMax || s.fault.Some? then s
    else BuildFrom(env, width, b, x + 2, ColumnAt(env, width, b, x, s))
  }

  /** The end of one batch: the state, the next column, and whether it yielded. */
  datatype Batch = Batch(state: BuildState, x: int, yielded: bool)

  /**
   * One call of batchInterpolate that was not cancelled, from column x: after each
   * column, number k of the batch, the clock check expired(k) may make it yield.
   */
  function BatchFrom(env: Env, width: int, b: Bounds, x: int, s: BuildState, expired: nat -> bool, k: nat)
    : (r: Batch)
    requires s.fault.None?
    ensures r.yielded ==> r.state.fault.None?
    decreases b.xMax - x + 2
  {
    if x >= b.xMax then Batch(s, x, false)
    else
      var next := ColumnAt(env, width, b, x, s);
      if next.fault.Some? then Batch(next, x, false)
      else if expired(k) then Batch(next, x + 2, true)
      else BatchFrom(env, width, b, x + 2, next, expired, k + 1)
  }

  /**
   * Yielding does not change the result: a batch either finishes the build or stops
   * at a state from which resuming gives what one uninterrupted run gives.
   */
  lemma {:induction false} BatchesComposeIntoBuild(env: Env, width: int, b: Bounds, x: int, s: BuildState,
                                                   expired: nat -> bool, k: nat)
    requires s.fault.None?
    ensures var r := BatchFrom(env, width, b, x, s, expired, k);
            (r.yielded ==> BuildFrom(env, width, b, r.x, r.state) == BuildFrom(env, width, b, x, s))
            && (!r.yielded ==> r.state == BuildFrom(env, width, b, x, s))
    decreases b.xMax - x + 2
  {
    if x < b.xMax {
      var next := ColumnAt(env, width, b, x, s);
      if next.fault.None? && !expired(k) {
        BatchesComposeIntoBuild(env, width, b, x + 2, next, expired, k + 1);
      }
    }
  }

  /** v lies on the stride of 2 that starts at base. */
  predicate OnStride(v: int, base: int)
  {
    v >= base && (v - base) % 2 == 0
  }

  /**
   * Row yq of column col at pixel column x is as the original mask dictates: present
   * exactly when the pixel was visible, and then the pixel's sample, repeated at yq + 1.
   */
  ghost predicate RowGood(env: Env, width: int, col: map<int, Vector>, x: int, yq: int, d0: seq<byte>)
  {
    && (yq in col <==> Visible(d0, width, x, yq))
    && (yq in col ==> PixelOutcome(env, x, yq).Success? && col[yq] == PixelOutcome(env, x, yq).value.0
                      && yq + 1 in col && col[yq + 1] == col[yq])
  }

  /** Every stride row of the column is as the original mask dictates, and the column holds no other key. */
  ghost predicate ColumnGood(env: Env, width: int, b: Bounds, col: map<int, Vector>, x: int, d0: seq<byte>)
  {
    && (forall yq :: OnStride(yq, b.y) && yq <= b.yMax ==> RowGood(env, width, col, x, yq, d0))
    && (forall k :: k in col <==> RowKey(width, b, x, k, d0))
  }

  /** One row of the loop reads every pixel outside its block as before. */
  lemma StepPixelFrame(env: Env, width: int, x: int, y: int, col: map<int, Vector>, data: seq<byte>)
    requires 0 <= x && x + 1 < width
    ensures var data' := StepResult(env, width, x, y, col, data).1;
            forall qx, qy :: 0 <= qx < width && !(x <= qx <= x + 1 && y <= qy <= y + 1) ==>
              PixelRead(data', width, qx, qy) == PixelRead(data, width, qx, qy)
  {
    if Visible(data, width, x, y) && PixelOutcome(env, x, y).Success? {
      var c := PixelOutcome(env, x, y).value.1;
      forall qx, qy | 0 <= qx < width && !(x <= qx <= x + 1 && y <= qy <= y + 1)
        ensures PixelRead(PaintBlock(data, width, x, y, c), width, qx, qy) == PixelRead(data, width, qx, qy)
      {
        PaintBlockKeeps(data, width, x, y, c, qx, qy);
      }
    }
  }

  /** One row of the loop leaves every pixel outside its block as visible as it was. */
  lemma StepFrame(env: Env, width: int, x: int, y: int, col: map<int, Vector>, data: seq<byte>)
    requires 0 <= x && x + 1 < width
    ensures var data' := StepResult(env, width, x, y, col, data).1;
            forall qx, qy :: 0 <= qx < width && !(x <= qx <= x + 1 && y <= qy <= y + 1) ==>
              Visible(data', width, qx, qy) == Visible(data, width, qx, qy)
  {
    var data' := StepResult(env, width, x, y, col, data).1;
    StepPixelFrame(env, width, x, y, col, data);
    forall qx, qy | 0 <= qx < width && !(x <= qx <= x + 1 && y <= qy <= y + 1)
      ensures Visible(data', width, qx, qy) == Visible(data, width, qx, qy)
    {
      ReadSameVisible(data, data', width, qx, qy);
    }
  }

  /** The row loop from y on never touches the entries above row y. */
  lemma {:induction false} ColumnFromKeeps(env: Env, width: int, b: Bounds, x: int, y: int,
                                           col: map<int, Vector>, data: seq<byte>)
    ensures var r := ColumnFrom(env, width, b, x, y, col, data);
            forall k :: k < y ==> (k in r.col <==> k in col) && (k in col ==> r.col[k] == col[k])
    decreases b.yMax - y + 2
  {
    if y <= b.yMax && !(Visible(data, width, x, y) && PixelOutcome(env, x, y).Failure?) {
      var (col', data') := StepResult(env, width, x, y, col, data);
      ColumnFromKeeps(env, width, b, x, y + 2, col', data');
    }
  }

  /** The row loop from y on reads every pixel outside columns x and x + 1, and above row y, as before. */
  lemma {:induction false} ColumnFromPixelFrame(env: Env, width: int, b: Bounds, x: int, y: int,
                                                col: map<int, Vector>, data: seq<byte>)
    requires 0 <= x && x + 1 < width
    ensures var r := ColumnFrom(env, width, b, x, y, col, data);
            forall qx, qy :: 0 <= qx < width && (qx < x || x + 1 < qx || qy < y) ==>
              PixelRead(r.data, width, qx, qy) == PixelRead(data, width, qx, qy)
    decreases b.yMax - y + 2
  {
    if y <= b.yMax && !(Visible(data, width, x, y) && PixelOutcome(env, x, y).Failure?) {
      var (col', data') := StepResult(env, width, x, y, col, data);
      StepPixelFrame(env, width, x, y, col, data);
      ColumnFromPixelFrame(env, width, b, x, y + 2, col', data');
    }
  }

  /** The row loop from y on leaves every pixel outside columns x and x + 1, and above row y, as visible as it was. */
  lemma ColumnFromFrame(env: Env, width: int, b: Bounds, x: int, y: int, col: map<int, Vector>, data: seq<byte>)
    requires 0 <= x && x + 1 < width
    ensures var r := ColumnFrom(env, width, b, x, y, col, data);
            forall qx, qy :: 0 <= qx < width && (qx < x || x + 1 < qx || qy < y) ==>
              Visible(r.data, width, qx, qy) == Visible(data, width, qx, qy)
  {
    var r := ColumnFrom(env, width, b, x, y, col, data);
    ColumnFromPixelFrame(env, width, b, x, y, col, data);
    forall qx, qy | 0 <= qx < width && (qx < x || x + 1 < qx || qy < y)
      ensures Visible(r.data, width, qx, qy) == Visible(data, width, qx, qy)
    {
      ReadSameVisible(data, r.data, width, qx, qy);
    }
  }

  /** Visibility of column x's stride rows from y on is what the original mask d0 says. */
  ghost predicate StrideAgrees(width: int, b: Bounds, x: int, y: int, data: seq<byte>, d0: seq<byte>)
  {
    forall yq :: OnStride(yq, b.y) && y <= yq <= b.yMax ==> Visible(data, width, x, yq) == Visible(d0, width, x, yq)
  }

  /** The row loop keeps the agreement for the rows after the one it paints. */
  lemma StepAgrees(env: Env, width: int, b: Bounds, x: int, y: int, col: map<int, Vector>,
                   data: seq<byte>, d0: seq<byte>)
    requires 0 <= x && x + 1 < width && OnStride(y, b.y)
    requires StrideAgrees(width, b, x, y, data, d0)
    ensures StrideAgrees(width, b, x, y + 2, StepResult(env, width, x, y, col, data).1, d0)
  {
    StepFrame(env, width, x, y, col, data);
    var data' := StepResult(env, width, x, y, col, data).1;
    forall yq | OnStride(yq, b.y) && y + 2 <= yq <= b.yMax
      ensures Visible(data', width, x, yq) == Visible(d0, width, x, yq)
    {
      assert OnStride(yq, b.y) && y <= yq <= b.yMax;
    }
  }

  /** A stride pixel of column x that the original mask hides is still hidden afterwards. */
  lemma {:induction false} ColumnFromMasked(env: Env, width: int, b: Bounds, x: int, y: int,
                                            col: map<int, Vector>, data: seq<byte>, d0: seq<byte>)
    requires 0 <= x && x + 1 < width && OnStride(y, b.y)
    requires StrideAgrees(width, b, x, y, data, d0)
    ensures var r := ColumnFrom(env, width, b, x, y, col, data);
            forall yq :: OnStride(yq, b.y) && y <= yq <= b.yMax && !Visible(d0, width, x, yq) ==>
              !Visible(r.data, width, x, yq)
    decreases b.yMax - y + 2
  {
    if y <= b.yMax && !(Visible(data, width, x, y) && PixelOutcome(env, x, y).Failure?) {
      var (col', data') := StepResult(env, width, x, y, col, data);
      StepAgrees(env, width, b, x, y, col, data, d0);
      ColumnFromMasked(env, width, b, x, y + 2, col', data', d0);
      ColumnFromFrame(env, width, b, x, y + 2, col', data');
      HiddenRowsCombine(width, b, x, y, data, data', ColumnFrom(env, width, b, x, y + 2, col', data').data, d0);
    }
  }

  /** The hidden rows from y on: row y itself, which the step leaves alone, and the rows after it. */
  lemma HiddenRowsCombine(width: int, b: Bounds, x: int, y: int, data: seq<byte>, data': seq<byte>,
                          rest: seq<byte>, d0: seq<byte>)
    requires 0 <= x < width && OnStride(y, b.y)
    requires Visible(data, width, x, y) == Visible(d0, width, x, y)
    requires !Visible(data, width, x, y) ==> data' == data
    requires Visible(rest, width, x, y) == Visible(data', width, x, y)
    requires forall yq :: OnStride(yq, b.y) && y + 2 <= yq <= b.yMax && !Visible(d0, width, x, yq) ==>
               !Visible(rest, width, x, yq)
    ensures forall yq :: OnStride(yq, b.y) && y <= yq <= b.yMax && !Visible(d0, width, x, yq) ==>
              !Visible(rest, width, x, yq)
  {
    forall yq | OnStride(yq, b.y) && y <= yq <= b.yMax && !Visible(d0, width, x, yq)
      ensures !Visible(rest, width, x, yq)
    {
      if yq != y {
        assert y + 2 <= yq;
      }
    }
  }

  /** The row at y stores what RowGood asks for at y, and only keys y and y + 1. */
  lemma StepRowGood(env: Env, width: int, x: int, y: int, col: map<int, Vector>, data: seq<byte>, d0: seq<byte>)
    requires forall k :: k in col ==> k < y
    requires Visible(data, width, x, y) == Visible(d0, width, x, y)
    requires Visible(data, width, x, y) ==> PixelOutcome(env, x, y).Success?
    ensures var col' := StepResult(env, width, x, y, col, data).0;
            RowGood(env, width, col', x, y, d0) && forall k :: k in col' ==> k < y + 2
  {
  }

  /** RowGood at y only depends on the keys y and y + 1. */
  lemma RowGoodKept(env: Env, width: int, col: map<int, Vector>, col': map<int, Vector>, x: int, y: int,
                    d0: seq<byte>)
    requires RowGood(env, width, col, x, y, d0)
    requires forall k :: k < y + 2 ==> (k in col' <==> k in col) && (k in col ==> col'[k] == col[k])
    ensures RowGood(env, width, col', x, y, d0)
  {
    assert y < y + 2 && y + 1 < y + 2;
  }

  /**
   * The row loop, when it completes, fills every stride row from y on as the original
   * mask dictates.
   */
  lemma {:induction false} ColumnFromRows(env: Env, width: int, b: Bounds, x: int, y: int,
                                          col: map<int, Vector>, data: seq<byte>, d0: seq<byte>)
    requires 0 <= x && x + 1 < width && OnStride(y, b.y)
    requires forall k :: k in col ==> k < y
    requires StrideAgrees(width, b, x, y, data, d0)
    requires ColumnFrom(env, width, b, x, y, col, data).fault.None?
    ensures var r := ColumnFrom(env, width, b, x, y, col, data);
            forall yq :: OnStride(yq, b.y) && y <= yq <= b.yMax ==> RowGood(env, width, r.col, x, yq, d0)
    decreases b.yMax - y + 2
  {
    if y <= b.yMax {
      var (col', data') := StepResult(env, width, x, y, col, data);
      var r := ColumnFrom(env, width, b, x, y + 2, col', data');
      RowsStep(env, width, b, x, y, col, data, d0);
      ColumnFromRows(env, width, b, x, y + 2, col', data', d0);
      ColumnFromKeeps(env, width, b, x, y + 2, col', data');
      RowGoodKept(env, width, col', r.col, x, y, d0);
      RowsCombine(env, width, b, x, y, r.col, d0);
    }
  }

  /** One completed row of the loop: row y is good, and the rest of the loop starts from y + 2. */
  lemma RowsStep(env: Env, width: int, b: Bounds, x: int, y: int, col: map<int, Vector>, data: seq<byte>,
                 d0: seq<byte>)
    requires 0 <= x && x + 1 < width && OnStride(y, b.y) && y <= b.yMax
    requires forall k :: k in col ==> k < y
    requires StrideAgrees(width, b, x, y, data, d0)
    requires ColumnFrom(env, width, b, x, y, col, data).fault.None?
    ensures var (col', data') := StepResult(env, width, x, y, col, data);
            && ColumnFrom(env, width, b, x, y, col, data) == ColumnFrom(env, width, b, x, y + 2, col', data')
            && RowGood(env, width, col', x, y, d0) && (forall k :: k in col' ==> k < y + 2)
            && StrideAgrees(width, b, x, y + 2, data', d0)
            && OnStride(y + 2, b.y)
  {
    assert Visible(data, width, x, y) == Visible(d0, width, x, y);
    StepRowGood(env, width, x, y, col, data, d0);
    StepAgrees(env, width, b, x, y, col, data, d0);
  }

  /** The good rows from y on: row y itself and the rows after it. */
  lemma RowsCombine(env: Env, width: int, b: Bounds, x: int, y: int, col: map<int, Vector>, d0: seq<byte>)
    requires OnStride(y, b.y)
    requires RowGood(env, width, col, x, y, d0)
    requires forall yq :: OnStride(yq, b.y) && y + 2 <= yq <= b.yMax ==> RowGood(env, width, col, x, yq, d0)
    ensures forall yq :: OnStride(yq, b.y) && y <= yq <= b.yMax ==> RowGood(env, width, col, x, yq, d0)
  {
    forall yq | OnStride(yq, b.y) && y <= yq <= b.yMax
      ensures RowGood(env, width, col, x, yq, d0)
    {
      if yq != y {
        assert y + 2 <= yq;
      }
    }
  }

  /** All four pixels of the block at (x, y) hold c. */
  predicate BlockHasColor(data: seq<byte>, width: int, x: int, y: int, c: Rgba)
  {
    HasColor(data, width, x, y, c) && HasColor(data, width, x + 1, y, c)
    && HasColor(data, width, x, y + 1, c) && HasColor(data, width, x + 1, y + 1, c)
  }

  /** All four pixels of the block at (x, y) read as in the original mask d0. */
  predicate BlockKept(data: seq<byte>, d0: seq<byte>, width: int, x: int, y: int)
  {
    && PixelRead(data, width, x, y) == PixelRead(d0, width, x, y)
    && PixelRead(data, width, x + 1, y) == PixelRead(d0, width, x + 1, y)
    && PixelRead(data, width, x, y + 1) == PixelRead(d0, width, x, y + 1)
    && PixelRead(data, width, x + 1, y + 1) == PixelRead(d0, width, x + 1, y + 1)
  }

  /**
   * The block of stride pixel (x, y) is as interpolateColumn leaves it: painted in the
   * pixel's colour when the original mask shows the pixel, and untouched otherwise.
   */
  predicate BlockPainted(env: Env, width: int, data: seq<byte>, d0: seq<byte>, x: int, y: int)
  {
    if Visible(d0, width, x, y) then
      PixelOutcome(env, x, y).Success? && BlockHasColor(data, width, x, y, PixelOutcome(env, x, y).value.1)
    else BlockKept(data, d0, width, x, y)
  }

  /** Whether a block is painted depends only on how its four pixels read. */
  lemma BlockPaintedKept(env: Env, width: int, data: seq<byte>, data': seq<byte>, d0: seq<byte>, x: int, y: int)
    requires BlockPainted(env, width, data, d0, x, y)
    requires PixelRead(data', width, x, y) == PixelRead(data, width, x, y)
    requires PixelRead(data', width, x + 1, y) == PixelRead(data, width, x + 1, y)
    requires PixelRead(data', width, x, y + 1) == PixelRead(data, width, x, y + 1)
    requires PixelRead(data', width, x + 1, y + 1) == PixelRead(data, width, x + 1, y + 1)
    ensures BlockPainted(env, width, data', d0, x, y)
  {
  }

  /** Columns x and x + 1 still read as in d0 from row y down. */
  ghost predicate ColumnUntouched(width: int, x: int, y: int, data: seq<byte>, d0: seq<byte>)
  {
    forall py :: y <= py ==>
      PixelRead(data, width, x, py) == PixelRead(d0, width, x, py)
      && PixelRead(data, width, x + 1, py) == PixelRead(d0, width, x + 1, py)
  }

  /** One row of the loop paints its block as the original mask dictates and leaves the rows below alone. */
  lemma StepPaints(env: Env, width: int, x: int, y: int, col: map<int, Vector>, data: seq<byte>, d0: seq<byte>)
    requires 0 <= x && x + 1 < width
    requires ColumnUntouched(width, x, y, data, d0)
    requires Visible(data, width, x, y) ==> PixelOutcome(env, x, y).Success?
    ensures var data' := StepResult(env, width, x, y, col, data).1;
            BlockPainted(env, width, data', d0, x, y) && ColumnUntouched(width, x, y + 2, data', d0)
  {
    assert PixelRead(data, width, x, y) == PixelRead(d0, width, x, y);
    ReadSameVisible(d0, data, width, x, y);
    if Visible(data, width, x, y) {
      var c := PixelOutcome(env, x, y).value.1;
      var data' := PaintBlock(data, width, x, y, c);
      PaintBlockColors(data, width, x, y, c, x, y);
      PaintBlockColors(data, width, x, y, c, x + 1, y);
      PaintBlockColors(data, width, x, y, c, x, y + 1);
      PaintBlockColors(data, width, x, y, c, x + 1, y + 1);
      forall py | y + 2 <= py
        ensures PixelRead(data', width, x, py) == PixelRead(d0, width, x, py)
                && PixelRead(data', width, x + 1, py) == PixelRead(d0, width, x + 1, py)
      {
        PaintBlockKeeps(data, width, x, y, c, x, py);
        PaintBlockKeeps(data, width, x, y, c, x + 1, py);
      }
    } else {
      assert y + 1 >= y;
    }
  }

  /** The painted blocks from y on: block y itself and the blocks after it. */
  lemma PaintsCombine(env: Env, width: int, b: Bounds, x: int, y: int, data: seq<byte>, d0: seq<byte>)
    requires OnStride(y, b.y)
    requires BlockPainted(env, width, data, d0, x, y)
    requires forall yq :: OnStride(yq, b.y) && y + 2 <= yq <= b.yMax ==> BlockPainted(env, width, data, d0, x, yq)
    ensures forall yq :: OnStride(yq, b.y) && y <= yq <= b.yMax ==> BlockPainted(env, width, data, d0, x, yq)
  {
    forall yq | OnStride(yq, b.y) && y <= yq <= b.yMax
      ensures BlockPainted(env, width, data, d0, x, yq)
    {
      if yq != y {
        assert y + 2 <= yq;
      }
    }
  }

  /** One completed row of the loop: block y is painted, and the rest of the loop starts from y + 2. */
  lemma PaintsStep(env: Env, width: int, b: Bounds, x: int, y: int, col: map<int, Vector>, data: seq<byte>,
                   d0: seq<byte>)
    requires 0 <= x && x + 1 < width && OnStride(y, b.y) && y <= b.yMax
    requires ColumnUntouched(width, x, y, data, d0)
    requires ColumnFrom(env, width, b, x, y, col, data).fault.None?
    ensures var (col', data') := StepResult(env, width, x, y, col, data);
            && ColumnFrom(env, width, b, x, y, col, data) == ColumnFrom(env, width, b, x, y + 2, col', data')
            && BlockPainted(env, width, data', d0, x, y) && ColumnUntouched(width, x, y + 2, data', d0)
            && OnStride(y + 2, b.y)
  {
    StepPaints(env, width, x, y, col, data, d0);
  }

  /** Block y, painted before the rows below it, stays painted beside the blocks after it. */
  lemma PaintedBelow(env: Env, width: int, b: Bounds, x: int, y: int, data': seq<byte>, rest: seq<byte>,
                     d0: seq<byte>)
    requires 0 <= x && x + 1 < width && OnStride(y, b.y)
    requires BlockPainted(env, width, data', d0, x, y)
    requires forall qx, qy :: 0 <= qx < width && (qx < x || x + 1 < qx || qy < y + 2) ==>
               PixelRead(rest, width, qx, qy) == PixelRead(data', width, qx, qy)
    requires forall yq :: OnStride(yq, b.y) && y + 2 <= yq <= b.yMax ==> BlockPainted(env, width, rest, d0, x, yq)
    ensures forall yq :: OnStride(yq, b.y) && y <= yq <= b.yMax ==> BlockPainted(env, width, rest, d0, x, yq)
  {
    BlockPaintedKept(env, width, data', rest, d0, x, y);
    PaintsCombine(env, width, b, x, y, rest, d0);
  }

  /**
   * The row loop, when it completes over columns x and x + 1 that still read as in d0,
   * paints every stride block from row y on as the original mask dictates.
   */
  lemma {:induction false} ColumnFromPaints(env: Env, width: int, b: Bounds, x: int, y: int,
                                            col: map<int, Vector>, data: seq<byte>, d0: seq<byte>)
    requires 0 <= x && x + 1 < width && OnStride(y, b.y)
    requires ColumnUntouched(width, x, y, data, d0)
    requires ColumnFrom(env, width, b, x, y, col, data).fault.None?
    ensures var r := ColumnFrom(env, width, b, x, y, col, data);
            forall yq :: OnStride(yq, b.y) && y <= yq <= b.yMax ==> BlockPainted(env, width, r.data, d0, x, yq)
    decreases b.yMax - y + 2
  {
    if y <= b.yMax {
      var (col', data') := StepResult(env, width, x, y, col, data);
      var r := ColumnFrom(env, width, b, x, y + 2, col', data');
      PaintsStep(env, width, b, x, y, col, data, d0);
      ColumnFromPaints(env, width, b, x, y + 2, col', data', d0);
      ColumnFromPixelFrame(env, width, b, x, y + 2, col', data');
      PaintedBelow(env, width, b, x, y, data', r.data, d0);
    }
  }

  /**
   * Key k of a column belongs to the stride row k (or k - 1, for the copy at y + 1), and
   * that row's pixel is visible in the original mask.
   */
  predicate RowKey(width: int, b: Bounds, x: int, k: int, d0: seq<byte>)
  {
    var yq := if OnStride(k, b.y) then k else k - 1;
    OnStride(yq, b.y) && yq <= b.yMax && Visible(d0, width, x, yq)
  }

  /** One completed row adds exactly the keys y and y + 1 that RowKey admits. */
  lemma KeysStep(env: Env, width: int, b: Bounds, x: int, y: int, col: map<int, Vector>, data: seq<byte>,
                 d0: seq<byte>)
    requires OnStride(y, b.y) && y <= b.yMax
    requires forall k :: k in col ==> k < y
    requires Visible(data, width, x, y) == Visible(d0, width, x, y)
    requires Visible(data, width, x, y) ==> PixelOutcome(env, x, y).Success?
    ensures var col' := StepResult(env, width, x, y, col, data).0;
            (y in col' <==> RowKey(width, b, x, y, d0)) && (y + 1 in col' <==> RowKey(width, b, x, y + 1, d0))
  {
    assert !OnStride(y + 1, b.y);
  }

  /** The keys from y on: y and y + 1, and the keys after them. */
  lemma KeysCombine(width: int, b: Bounds, x: int, y: int, col': map<int, Vector>, rest: map<int, Vector>,
                    d0: seq<byte>)
    requires (y in col' <==> RowKey(width, b, x, y, d0)) && (y + 1 in col' <==> RowKey(width, b, x, y + 1, d0))
    requires forall k :: k < y + 2 ==> (k in rest <==> k in col')
    requires forall k :: y + 2 <= k ==> (k in rest <==> RowKey(width, b, x, k, d0))
    ensures forall k :: y <= k ==> (k in rest <==> RowKey(width, b, x, k, d0))
  {
    forall k | y <= k
      ensures k in rest <==> RowKey(width, b, x, k, d0)
    {
      if k < y + 2 {
        assert k == y || k == y + 1;
      }
    }
  }

  /**
   * The row loop, when it completes, holds from row y on exactly the keys of the stride
   * rows whose pixels were visible, each row at y and y + 1.
   */
  lemma {:induction false} ColumnFromKeys(env: Env, width: int, b: Bounds, x: int, y: int,
                                          col: map<int, Vector>, data: seq<byte>, d0: seq<byte>)
    requires 0 <= x && x + 1 < width && OnStride(y, b.y)
    requires forall k :: k in col ==> k < y
    requires StrideAgrees(width, b, x, y, data, d0)
    requires ColumnFrom(env, width, b, x, y, col, data).fault.None?
    ensures var r := ColumnFrom(env, width, b, x, y, col, data);
            forall k :: y <= k ==> (k in r.col <==> RowKey(width, b, x, k, d0))
    decreases b.yMax - y + 2
  {
    if y <= b.yMax {
      var (col', data') := StepResult(env, width, x, y, col, data);
      var r := ColumnFrom(env, width, b, x, y + 2, col', data');
      RowsStep(env, width, b, x, y, col, data, d0);
      KeysStep(env, width, b, x, y, col, data, d0);
      ColumnFromKeys(env, width, b, x, y + 2, col', data', d0);
      ColumnFromKeeps(env, width, b, x, y + 2, col', data');
      KeysCombine(width, b, x, y, col', r.col, d0);
    } else {
      forall k | y <= k
        ensures !RowKey(width, b, x, k, d0)
      {
        if !OnStride(k, b.y) {
          assert k != y;
        }
      }
    }
  }

  /** interpolateColumn(x), when it completes, holds exactly the keys RowKey admits. */
  lemma ColumnAtKeys(env: Env, width: int, b: Bounds, x: int, s: BuildState, d0: seq<byte>)
    requires 0 <= b.x && b.xMax < width && OnStride(x, b.x) && x < b.xMax
    requires MaskAgrees(width, b, x, s.data, d0)
    requires ColumnFrom(env, width, b, x, b.y, map[], s.data).fault.None?
    ensures var c := ColumnFrom(env, width, b, x, b.y, map[], s.data);
            forall k :: k in c.col <==> RowKey(width, b, x, k, d0)
  {
    var c := ColumnFrom(env, width, b, x, b.y, map[], s.data);
    assert OnStride(b.y, b.y);
    assert StrideAgrees(width, b, x, b.y, s.data, d0) by {
      forall yq | OnStride(yq, b.y) && b.y <= yq <= b.yMax
        ensures Visible(s.data, width, x, yq) == Visible(d0, width, x, yq)
      {
        assert x <= x < b.xMax;
      }
    }
    ColumnFromKeys(env, width, b, x, b.y, map[], s.data, d0);
    ColumnFromKeeps(env, width, b, x, b.y, map[], s.data);
    forall k | k < b.y
      ensures k !in c.col && !RowKey(width, b, x, k, d0)
    {
    }
  }

  /** Every stride column before x is stored at qx and qx + 1 and is as the original mask dictates. */
  ghost predicate BuiltUpTo(env: Env, width: int, b: Bounds, columns: Columns, x: int, d0: seq<byte>)
  {
    forall qx :: OnStride(qx, b.x) && qx < x && qx < b.xMax ==>
      && qx in columns && qx + 1 in columns && columns[qx + 1] == columns[qx]
      && ColumnGood(env, width, b, columns[qx], qx, d0)
  }

  /** Every stride pixel from column x on is still as visible as in the original mask. */
  ghost predicate MaskAgrees(width: int, b: Bounds, x: int, data: seq<byte>, d0: seq<byte>)
  {
    forall qx, yq :: OnStride(qx, b.x) && x <= qx < b.xMax && OnStride(yq, b.y) && yq <= b.yMax ==>
      Visible(data, width, qx, yq) == Visible(d0, width, qx, yq)
  }

  /** Every stride pixel before column x that the original mask hides is still hidden. */
  ghost predicate HiddenStaysHidden(width: int, b: Bounds, x: int, data: seq<byte>, d0: seq<byte>)
  {
    forall qx, yq ::
      (OnStride(qx, b.x) && qx < x && qx < b.xMax && OnStride(yq, b.y) && yq <= b.yMax && !Visible(d0, width, qx, yq))
      ==> !Visible(data, width, qx, yq)
  }

  /** interpolateColumn(x), when it completes, stores column x as the original mask dictates. */
  lemma ColumnAtBuilt(env: Env, width: int, b: Bounds, x: int, s: BuildState, d0: seq<byte>)
    requires 0 <= b.x && b.xMax < width && OnStride(x, b.x) && x < b.xMax
    requires BuiltUpTo(env, width, b, s.columns, x, d0)
    requires MaskAgrees(width, b, x, s.data, d0)
    requires ColumnAt(env, width, b, x, s).fault.None?
    ensures BuiltUpTo(env, width, b, ColumnAt(env, width, b, x, s).columns, x + 2, d0)
  {
    var c := ColumnFrom(env, width, b, x, b.y, map[], s.data);
    var r := ColumnAt(env, width, b, x, s);
    assert OnStride(b.y, b.y);
    assert StrideAgrees(width, b, x, b.y, s.data, d0) by {
      forall yq | OnStride(yq, b.y) && b.y <= yq <= b.yMax
        ensures Visible(s.data, width, x, yq) == Visible(d0, width, x, yq)
      {
        assert x <= x < b.xMax;
      }
    }
    ColumnFromRows(env, width, b, x, b.y, map[], s.data, d0);
    ColumnAtKeys(env, width, b, x, s, d0);
    assert ColumnGood(env, width, b, c.col, x, d0);
    forall qx | OnStride(qx, b.x) && qx < x + 2 && qx < b.xMax
      ensures && qx in r.columns && qx + 1 in r.columns && r.columns[qx + 1] == r.columns[qx]
              && ColumnGood(env, width, b, r.columns[qx], qx, d0)
    {
      if qx < x {
        assert qx + 1 < x;
      }
    }
  }

  /** interpolateColumn(x) leaves the stride pixels of the later columns alone. */
  lemma ColumnAtAgrees(env: Env, width: int, b: Bounds, x: int, s: BuildState, d0: seq<byte>)
    requires 0 <= b.x && b.xMax < width && OnStride(x, b.x) && x < b.xMax
    requires MaskAgrees(width, b, x, s.data, d0)
    ensures MaskAgrees(width, b, x + 2, ColumnAt(env, width, b, x, s).data, d0)
  {
    var r := ColumnAt(env, width, b, x, s);
    ColumnFromFrame(env, width, b, x, b.y, map[], s.data);
    forall qx, yq | OnStride(qx, b.x) && x + 2 <= qx < b.xMax && OnStride(yq, b.y) && yq <= b.yMax
      ensures Visible(r.data, width, qx, yq) == Visible(d0, width, qx, yq)
    {
      assert x <= qx < b.xMax;
    }
  }

  /** interpolateColumn(x) keeps hidden the stride pixels the original mask hides, up to column x. */
  lemma ColumnAtHidden(env: Env, width: int, b: Bounds, x: int, s: BuildState, d0: seq<byte>)
    requires 0 <= b.x && b.xMax < width && OnStride(x, b.x) && x < b.xMax
    requires MaskAgrees(width, b, x, s.data, d0)
    requires HiddenStaysHidden(width, b, x, s.data, d0)
    ensures HiddenStaysHidden(width, b, x + 2, ColumnAt(env, width, b, x, s).data, d0)
  {
    var r := ColumnAt(env, width, b, x, s);
    assert OnStride(b.y, b.y);
    assert StrideAgrees(width, b, x, b.y, s.data, d0) by {
      forall yq | OnStride(yq, b.y) && b.y <= yq <= b.yMax
        ensures Visible(s.data, width, x, yq) == Visible(d0, width, x, yq)
      {
        assert x <= x < b.xMax;
      }
    }
    var c := ColumnFrom(env, width, b, x, b.y, map[], s.data);
    assert r.data == c.data;
    ColumnFromFrame(env, width, b, x, b.y, map[], s.data);
    ColumnFromMasked(env, width, b, x, b.y, map[], s.data, d0);
    HiddenExtend(width, b, x, s.data, c.data, d0);
  }

  /**
   * Painting column x, which keeps every pixel of the other columns and hides again
   * what the original mask hides in column x, extends the hidden pixels to column x + 2.
   */
  lemma HiddenExtend(width: int, b: Bounds, x: int, data: seq<byte>, data': seq<byte>, d0: seq<byte>)
    requires 0 <= b.x && b.xMax < width && OnStride(x, b.x) && x < b.xMax
    requires HiddenStaysHidden(width, b, x, data, d0)
    requires forall qx, qy :: 0 <= qx < width && (qx < x || x + 1 < qx || qy < b.y) ==>
               Visible(data', width, qx, qy) == Visible(data, width, qx, qy)
    requires forall yq :: OnStride(yq, b.y) && b.y <= yq <= b.yMax && !Visible(d0, width, x, yq) ==>
               !Visible(data', width, x, yq)
    ensures HiddenStaysHidden(width, b, x + 2, data', d0)
  {
    forall qx, yq | OnStride(qx, b.x) && qx < x + 2 && qx < b.xMax && OnStride(yq, b.y) && yq <= b.yMax
                    && !Visible(d0, width, qx, yq)
      ensures !Visible(data', width, qx, yq)
    {
      if qx < x {
        assert !Visible(data, width, qx, yq);
      } else {
        assert qx == x;
      }
    }
  }

  /**
   * The column loop from x on, when it completes, extends all three facts to every
   * stride column.
   */
  lemma {:induction false} BuildFromGood(env: Env, width: int, b: Bounds, x: int, s: BuildState, d0: seq<byte>)
    requires 0 <= b.x && b.xMax < width && OnStride(x, b.x)
    requires s.fault.None?
    requires BuiltUpTo(env, width, b, s.columns, x, d0)
    requires MaskAgrees(width, b, x, s.data, d0)
    requires HiddenStaysHidden(width, b, x, s.data, d0)
    requires BuildFrom(env, width, b, x, s).fault.None?
    ensures var r := BuildFrom(env, width, b, x, s);
            BuiltUpTo(env, width, b, r.columns, b.xMax, d0) && HiddenStaysHidden(width, b, b.xMax, r.data, d0)
    decreases b.xMax - x + 2
  {
    if x < b.xMax {
      var next := ColumnAt(env, width, b, x, s);
      if next.fault.None? {
        ColumnAtBuilt(env, width, b, x, s, d0);
        ColumnAtAgrees(env, width, b, x, s, d0);
        ColumnAtHidden(env, width, b, x, s, d0);
        assert OnStride(x + 2, b.x);
        BuildFromGood(env, width, b, x + 2, next, d0);
      }
    }
  }

  /** Every stride block before column x is painted as the original mask dictates. */
  ghost predicate BlocksPainted(env: Env, width: int, b: Bounds, x: int, data: seq<byte>, d0: seq<byte>)
  {
    forall qx, qy :: OnStride(qx, b.x) && qx < x && qx < b.xMax && OnStride(qy, b.y) && qy <= b.yMax ==>
      BlockPainted(env, width, data, d0, qx, qy)
  }

  /** Every pixel from column x on reads as in the original mask d0. */
  ghost predicate Untouched(width: int, x: int, data: seq<byte>, d0: seq<byte>)
  {
    forall px, py :: x <= px < width ==> PixelRead(data, width, px, py) == PixelRead(d0, width, px, py)
  }

  /** interpolateColumn(x), when it completes, paints column x's blocks and leaves the later columns alone. */
  lemma ColumnAtPaints(env: Env, width: int, b: Bounds, x: int, s: BuildState, d0: seq<byte>)
    requires 0 <= b.x && b.xMax < width && OnStride(x, b.x) && x < b.xMax
    requires BlocksPainted(env, width, b, x, s.data, d0) && Untouched(width, x, s.data, d0)
    requires ColumnAt(env, width, b, x, s).fault.None?
    ensures var r := ColumnAt(env, width, b, x, s);
            BlocksPainted(env, width, b, x + 2, r.data, d0) && Untouched(width, x + 2, r.data, d0)
  {
    var c := ColumnFrom(env, width, b, x, b.y, map[], s.data);
    assert ColumnUntouched(width, x, b.y, s.data, d0);
    assert OnStride(b.y, b.y);
    ColumnFromPaints(env, width, b, x, b.y, map[], s.data, d0);
    ColumnFromPixelFrame(env, width, b, x, b.y, map[], s.data);
    PaintedExtend(env, width, b, x, s.data, c.data, d0);
    UntouchedExtend(width, x, s.data, c.data, d0);
  }

  /** Painting column x's blocks, and nothing in the earlier columns, extends the painted blocks to column x + 2. */
  lemma PaintedExtend(env: Env, width: int, b: Bounds, x: int, data: seq<byte>, data': seq<byte>, d0: seq<byte>)
    requires 0 <= b.x && OnStride(x, b.x) && x + 1 < width
    requires BlocksPainted(env, width, b, x, data, d0)
    requires forall qx, qy :: 0 <= qx < width && (qx < x || x + 1 < qx || qy < b.y) ==>
               PixelRead(data', width, qx, qy) == PixelRead(data, width, qx, qy)
    requires forall yq :: OnStride(yq, b.y) && b.y <= yq <= b.yMax ==> BlockPainted(env, width, data', d0, x, yq)
    ensures BlocksPainted(env, width, b, x + 2, data', d0)
  {
    PaintedKeptBefore(env, width, b, x, data, data', d0);
    forall qx, qy | OnStride(qx, b.x) && qx < x + 2 && qx < b.xMax && OnStride(qy, b.y) && qy <= b.yMax
      ensures BlockPainted(env, width, data', d0, qx, qy)
    {
      if qx != x {
        assert qx < x;
      }
    }
  }

  /** Blocks before column x whose pixels read as before stay painted. */
  lemma PaintedKeptBefore(env: Env, width: int, b: Bounds, x: int, data: seq<byte>, data': seq<byte>, d0: seq<byte>)
    requires 0 <= b.x && OnStride(x, b.x) && x + 1 < width
    requires BlocksPainted(env, width, b, x, data, d0)
    requires forall qx, qy :: 0 <= qx < width && qx < x ==>
               PixelRead(data', width, qx, qy) == PixelRead(data, width, qx, qy)
    ensures BlocksPainted(env, width, b, x, data', d0)
  {
    forall qx, qy | OnStride(qx, b.x) && qx < x && qx < b.xMax && OnStride(qy, b.y) && qy <= b.yMax
      ensures BlockPainted(env, width, data', d0, qx, qy)
    {
      assert qx + 1 < x;
      BlockPaintedKept(env, width, data, data', d0, qx, qy);
    }
  }

  /** Painting only columns x and x + 1 keeps the columns from x + 2 on as in d0. */
  lemma UntouchedExtend(width: int, x: int, data: seq<byte>, data': seq<byte>, d0: seq<byte>)
    requires 0 <= x && Untouched(width, x, data, d0)
    requires forall qx, qy :: 0 <= qx < width && x + 1 < qx ==>
               PixelRead(data', width, qx, qy) == PixelRead(data, width, qx, qy)
    ensures Untouched(width, x + 2, data', d0)
  {
    forall px, py | x + 2 <= px < width
      ensures PixelRead(data', width, px, py) == PixelRead(d0, width, px, py)
    {
      assert x <= px && x + 1 < px;
    }
  }

  /** The column loop from x on, when it completes, paints every stride block as the original mask dictates. */
  lemma {:induction false} BuildFromPaints(env: Env, width: int, b: Bounds, x: int, s: BuildState, d0: seq<byte>)
    requires 0 <= b.x && b.xMax < width && OnStride(x, b.x)
    requires s.fault.None?
    requires BlocksPainted(env, width, b, x, s.data, d0) && Untouched(width, x, s.data, d0)
    requires BuildFrom(env, width, b, x, s).fault.None?
    ensures BlocksPainted(env, width, b, b.xMax, BuildFrom(env, width, b, x, s).data, d0)
    decreases b.xMax - x + 2
  {
    if x < b.xMax {
      var next := ColumnAt(env, width, b, x, s);
      if next.fault.None? {
        ColumnAtPaints(env, width, b, x, s, d0);
        assert OnStride(x + 2, b.x);
        BuildFromPaints(env, width, b, x + 2, next, d0);
      }
    }
  }

  /**
   * Key k of the table belongs to the stride column k (or k - 1, for the copy at
   * x + 1), and that column lies before xEnd and before bounds.xMax.
   */
  predicate ColumnKey(b: Bounds, xEnd: int, k: int)
  {
    var xq := if OnStride(k, b.x) then k else k - 1;
    OnStride(xq, b.x) && xq < xEnd && xq < b.xMax
  }

  /** The column loop from x on, when it completes, holds exactly the keys of the stride columns. */
  lemma {:induction false} BuildFromKeys(env: Env, width: int, b: Bounds, x: int, s: BuildState)
    requires OnStride(x, b.x) && s.fault.None?
    requires forall k :: k in s.columns <==> ColumnKey(b, x, k)
    requires BuildFrom(env, width, b, x, s).fault.None?
    ensures forall k :: k in BuildFrom(env, width, b, x, s).columns <==> ColumnKey(b, b.xMax, k)
    decreases b.xMax - x + 2
  {
    if x < b.xMax {
      var next := ColumnAt(env, width, b, x, s);
      if next.fault.None? {
        forall k
          ensures k in next.columns <==> ColumnKey(b, x + 2, k)
        {
          if k != x && k != x + 1 {
            assert ColumnKey(b, x + 2, k) <==> ColumnKey(b, x, k);
          } else {
            assert !OnStride(x + 1, b.x);
          }
        }
        assert OnStride(x + 2, b.x);
        BuildFromKeys(env, width, b, x + 2, next);
      }
    }
  }

  /**
   * What a completed interpolateField builds from the mask bytes d0. The table holds
   * exactly the stride columns xc (bounds.x, bounds.x + 2, ... < bounds.xMax), each at xc
   * and xc + 1. Column xc holds exactly the stride rows yr (bounds.y, bounds.y + 2, ...
   * <= bounds.yMax) whose pixel was visible, each at yr and yr + 1, with the pixel's own
   * sample. A visible pixel's 2 x 2 block is painted in its colour, and a hidden pixel's
   * block reads as in d0.
   */
  lemma BuildMatchesMask(env: Env, view: View, b: Bounds, d0: seq<byte>, xc: int, yr: int)
    requires ClampedTo(b, view)
    requires BuildFrom(env, view.width, b, b.x, BuildState(map[], d0, None)).fault.None?
    requires OnStride(xc, b.x) && xc < b.xMax && OnStride(yr, b.y) && yr <= b.yMax
    ensures var r := BuildFrom(env, view.width, b, b.x, BuildState(map[], d0, None));
            && (forall k :: k in r.columns <==> ColumnKey(b, b.xMax, k))
            && xc in r.columns && xc + 1 in r.columns && r.columns[xc + 1] == r.columns[xc]
            && (forall k :: k in r.columns[xc] <==> RowKey(view.width, b, xc, k, d0))
            && (yr in r.columns[xc] <==> Visible(d0, view.width, xc, yr))
            && (yr in r.columns[xc] ==>
                  yr + 1 in r.columns[xc] && r.columns[xc][yr + 1] == r.columns[xc][yr]
                  && PixelOutcome(env, xc, yr).Success? && r.columns[xc][yr] == PixelOutcome(env, xc, yr).value.0)
            && (Visible(d0, view.width, xc, yr) ==>
                  PixelOutcome(env, xc, yr).Success?
                  && BlockHasColor(r.data, view.width, xc, yr, PixelOutcome(env, xc, yr).value.1))
            && (!Visible(d0, view.width, xc, yr) ==> BlockKept(r.data, d0, view.width, xc, yr))
  {
    var s := BuildState(map[], d0, None);
    assert OnStride(b.x, b.x);
    BuildFromGood(env, view.width, b, b.x, s, d0);
    BuildFromPaints(env, view.width, b, b.x, s, d0);
    BuildFromKeys(env, view.width, b, b.x, s);
    var r := BuildFrom(env, view.width, b, b.x, s);
    assert ColumnGood(env, view.width, b, r.columns[xc], xc, d0);
    assert RowGood(env, view.width, r.columns[xc], xc, yr, d0);
    assert BlockPainted(env, view.width, r.data, d0, xc, yr);
  }

  /**
   * The finished field at pixel (xc + i, yr + j) of a stride block: the stride pixel's
   * sample when it was visible, and NULL_WIND_VECTOR when it was hidden.
   */
  lemma BlockLookup(env: Env, view: View, b: Bounds, d0: seq<byte>, xc: int, yr: int, i: int, j: int)
    requires ClampedTo(b, view)
    requires BuildFrom(env, view.width, b, b.x, BuildState(map[], d0, None)).fault.None?
    requires OnStride(xc, b.x) && xc < b.xMax && OnStride(yr, b.y) && yr <= b.yMax
    requires 0 <= i <= 1 && 0 <= j <= 1
    ensures var r := BuildFrom(env, view.width, b, b.x, BuildState(map[], d0, None));
            var v := Lookup(r.columns, (xc + i) as real, (yr + j) as real);
            && (Visible(d0, view.width, xc, yr) ==> PixelOutcome(env, xc, yr).Success? && v == PixelOutcome(env, xc, yr).value.0)
            && (!Visible(d0, view.width, xc, yr) ==> v == Outside)
  {
    BuildMatchesMask(env, view, b, d0, xc, yr);
    var r := BuildFrom(env, view.width, b, b.x, BuildState(map[], d0, None));
    if Visible(d0, view.width, xc, yr) {
      ColumnLookup(r.columns, view.width, b, d0, xc, yr, i, j, PixelOutcome(env, xc, yr).value.0);
    } else {
      ColumnLookup(r.columns, view.width, b, d0, xc, yr, i, j, Outside);
    }
  }

  /** A stride block of a table with exactly the RowKey keys reads the row's entry, or NULL_WIND_VECTOR when hidden. */
  lemma ColumnLookup(columns: Columns, width: int, b: Bounds, d0: seq<byte>, xc: int, yr: int, i: int, j: int,
                     v: Vector)
    requires xc in columns && xc + 1 in columns && columns[xc + 1] == columns[xc]
    requires forall k :: k in columns[xc] <==> RowKey(width, b, xc, k, d0)
    requires OnStride(yr, b.y) && yr <= b.yMax && 0 <= i <= 1 && 0 <= j <= 1
    requires yr in columns[xc] ==> yr + 1 in columns[xc] && columns[xc][yr + 1] == columns[xc][yr] && columns[xc][yr] == v
    ensures Lookup(columns, (xc + i) as real, (yr + j) as real) == if Visible(d0, width, xc, yr) then v else Outside
  {
    RoundInteger(xc + i);
    RoundInteger(yr + j);
    assert !OnStride(yr + 1, b.y);
    assert yr + j in columns[xc] <==> RowKey(width, b, xc, yr + j, d0);
  }

  /** How one call of batchInterpolate ends: yielding to the scheduler, or settling the task. */
  datatype BatchOutcome = Yielded | Resolved | Rejected(error: Error)

  /**
   * The state interpolateField's closures share: the column table, the next column x,
   * and the mask whose bytes become the overlay.
   */
  class FieldBuilder {
    const env: Env
    const bounds: Bounds
    const mask: Mask
    var columns: Columns
    var x: int

    constructor (env: Env, bounds: Bounds, mask: Mask)
      ensures this.env == env && this.bounds == bounds && this.mask == mask
      ensures columns == map[] && x == bounds.x
    {
      this.env := env;
      this.bounds := bounds;
      this.mask := mask;
      columns := map[];
      x := bounds.x;
    }

    /** The builder's state as the functions above see it, before any exception. */
    function State(): BuildState
      reads this, mask.data
    {
      BuildState(columns, mask.data[..], None)
    }

    /**
     * interpolateColumn(x): fill one column, painting the mask as it goes. An exception
     * from a callee is returned as the fault, leaving the mask as painted so far and
     * the table unchanged.
     */
    method InterpolateColumn(x: int) returns (fault: Option<Error>)
      modifies this, mask.data
      ensures BuildState(columns, mask.data[..], fault) == ColumnAt(env, mask.width, bounds, x, old(State()))
      ensures this.x == old(this.x)
    {
      var column: map<int, Vector> := map[];
      var y := bounds.y;
      ghost var goal := ColumnFrom(env, mask.width, bounds, x, bounds.y, map[], mask.data[..]);
      while y <= bounds.yMax
        invariant ColumnFrom(env, mask.width, bounds, x, y, column, mask.data[..]) == goal
        invariant columns == old(columns) && this.x == old(this.x)
      {
        ghost var col0, data0 := column, mask.data[..];
        column, fault := InterpolateRow(x, y, column);
        if fault.Some? {
          return;
        }
        ColumnFromUnfold(env, mask.width, bounds, x, y, col0, data0);
        y := y + 2;
      }
      columns := columns[x + 1 := column][x := column];
      fault := None;
    }

    /**
     * One pass of interpolateColumn's row loop: a visible pixel stores its entry at y and
     * y + 1 and paints its block, unless a callee throws, which leaves the mask as it was.
     */
    method InterpolateRow(x: int, y: int, column: map<int, Vector>) returns (column': map<int, Vector>, fault: Option<Error>)
      modifies mask.data
      ensures fault.Some? <==> Visible(old(mask.data[..]), mask.width, x, y) && PixelOutcome(env, x, y).Failure?
      ensures fault.Some? ==> fault.value == PixelOutcome(env, x, y).error && mask.data[..] == old(mask.data[..])
      ensures fault.None? ==> (column', mask.data[..]) == StepResult(env, mask.width, x, y, column, old(mask.data[..]))
    {
      column', fault := column, None;
      if mask.IsVisible(x, y) {
        var outcome := PixelOutcome(env, x, y);
        if outcome.Failure? {
          fault := Some(outcome.error);
          return;
        }
        var (v, c) := outcome.value;
        column' := column[y + 1 := v][y := v];
        PaintPixel(x, y, c);
      }
    }

    /**
     * The four mask.set calls of one visible pixel: each byte of the 2 x 2 block gets its
     * component of c, so each of the four pixels holds c, and every other byte stays.
     */
    method PaintPixel(x: int, y: int, c: Rgba)
      modifies mask.data
      ensures mask.data[..] == PaintBlock(old(mask.data[..]), mask.width, x, y, c)
      ensures BlockWritten(mask.data[..], old(mask.data[..]), mask.width, x, y, c)
      ensures BlockHasColor(mask.data[..], mask.width, x, y, c)
    {
      ghost var d := mask.data[..];
      mask.Set(x, y, c);
      mask.Set(x + 1, y, c);
      mask.Set(x, y + 1, c);
      mask.Set(x + 1, y + 1, c);
      PaintBlockWrites(d, mask.width, x, y, c);
      PaintBlockColors(d, mask.width, x, y, c, x, y);
      PaintBlockColors(d, mask.width, x, y, c, x + 1, y);
      PaintBlockColors(d, mask.width, x, y, c, x, y + 1);
      PaintBlockColors(d, mask.width, x, y, c, x + 1, y + 1);
    }

    /**
     * batchInterpolate: unless cancelled, fill columns from x on until the table is
     * complete, a callee throws, or the clock check after a column, expired(k) for the
     * k-th column of this batch, asks to yield; then resolve with the field, reject, or
     * yield. A cancelled task resolves at once with whatever the table holds.
     */
    method BatchInterpolate(cancelRequested: bool, expired: nat -> bool) returns (outcome: BatchOutcome, field: Field?)
      modifies this, mask.data
      ensures cancelRequested ==> columns == old(columns) && x == old(x) && mask.data[..] == old(mask.data[..])
                                  && outcome == Resolved
      ensures !cancelRequested ==>
                var r := BatchFrom(env, mask.width, bounds, old(x), old(State()), expired, 0);
                && columns == r.state.columns && mask.data[..] == r.state.data && x == r.x
                && (outcome.Yielded? <==> r.yielded)
                && (outcome.Rejected? <==> r.state.fault.Some?)
                && (outcome.Rejected? ==> outcome.error == r.state.fault.value)
      ensures outcome.Resolved? <==> field != null
      ensures field != null ==> fresh(field) && field.columns == columns && field.bounds == bounds
                                && field.overlay == mask.data
    {
      if !cancelRequested {
        var k: nat := 0;
        ghost var goal := BatchFrom(env, mask.width, bounds, x, State(), expired, 0);
        while x < bounds.xMax
          invariant BatchFrom(env, mask.width, bounds, x, State(), expired, k) == goal
          decreases bounds.xMax - x
        {
          var fault := InterpolateColumn(x);
          if fault.Some? {
            outcome, field := Rejected(fault.value), null;
            return;
          }
          x := x + 2;
          if expired(k) {
            outcome, field := Yielded, null;
            return;
          }
          k := k + 1;
        }
      }
      field := new Field(columns, bounds, mask.data);
      outcome := Resolved;
    }
  }
}
