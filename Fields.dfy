/**
 * The vector field of the app module (createField): a sparse table of columns of
 * wind vectors in pixel space, looked up at the nearest pixel, with two sentinels that
 * are equal in content ([NaN, NaN, null]) but distinct objects: NULL_WIND_VECTOR
 * (outside the field) and HOLE_VECTOR (inside the field, but no wind there).
 */
module Fields {
  import opened Values
  import opened Globes

  /** A field entry: a wind vector [u, v, magnitude], the hole sentinel or the outside sentinel. */
  datatype Vector = Wind(u: real, v: real, m: real) | Hole | Outside

  /** The magnitude is not null: only a real wind vector has one. */
  predicate Defined(v: Vector)
  {
    v.Wind?
  }

  /** Not the NULL_WIND_VECTOR object. */
  predicate Inside(v: Vector)
  {
    !v.Outside?
  }

  /** columns[x][y]: the sparse column arrays, indexed by pixel. */
  type Columns = map<int, map<int, Vector>>

  /** field(x, y): the entry at the nearest pixel, or NULL_WIND_VECTOR where there is none. */
  function Lookup(columns: Columns, x: real, y: real): Vector
  {
    var cx, cy := JsRound(x), JsRound(y);
    if cx in columns && cy in columns[cx] then columns[cx][cy] else Outside
  }

  /** isDefined implies isInsideBoundary. */
  lemma DefinedImpliesInside(columns: Columns, x: real, y: real)
    requires Defined(Lookup(columns, x, y))
    ensures Inside(Lookup(columns, x, y))
  {
  }

  /**
   * The lookup reports outside exactly when the nearest pixel has no column or no entry
   * (the table never stores NULL_WIND_VECTOR), and otherwise returns the stored entry.
   */
  lemma LookupCases(columns: Columns, x: real, y: real)
    requires forall cx, cy :: cx in columns && cy in columns[cx] ==> Inside(columns[cx][cy])
    ensures var cx, cy := JsRound(x), JsRound(y);
            (!Inside(Lookup(columns, x, y)) <==> !(cx in columns && cy in columns[cx]))
            && (cx in columns && cy in columns[cx] ==> Lookup(columns, x, y) == columns[cx][cy])
  {
  }

  /** A hole is inside the boundary but has no wind. */
  lemma HoleInsideUndefined(columns: Columns, x: real, y: real)
    requires JsRound(x) in columns && JsRound(y) in columns[JsRound(x)]
    requires columns[JsRound(x)][JsRound(y)] == Hole
    ensures Inside(Lookup(columns, x, y)) && !Defined(Lookup(columns, x, y))
  {
  }

  /** An integer rounds to itself. */
  lemma RoundInteger(k: int)
    ensures JsRound(k as real) == k
  {
  }

  /** Every point within half a pixel (rounding up at the half) reads the same entry. */
  lemma LookupNearestPixel(columns: Columns, x: real, y: real)
    ensures Lookup(columns, x, y) == Lookup(columns, JsRound(x) as real, JsRound(y) as real)
  {
    RoundInteger(JsRound(x));
    RoundInteger(JsRound(y));
  }

  /** After release the table is empty, and every point is outside and undefined. */
  lemma ReleasedIsOutside(x: real, y: real)
    ensures !Inside(Lookup(map[], x, y)) && !Defined(Lookup(map[], x, y))
  {
  }

  /** The field object: its column table, the bounds it covers, and the overlay image. */
  class Field {
    var columns: Columns
    const bounds: Bounds
    const overlay: array<byte>

    constructor (columns: Columns, bounds: Bounds, overlay: array<byte>)
      ensures this.columns == columns && this.bounds == bounds && this.overlay == overlay
    {
      this.columns := columns;
      this.bounds := bounds;
      this.overlay := overlay;
    }

    /** field(x, y). */
    function At(x: real, y: real): Vector
      reads this
    {
      Lookup(columns, x, y)
    }

    /** field.isDefined(x, y). */
    predicate IsDefined(x: real, y: real)
      reads this
    {
      Defined(At(x, y))
    }

    /** field.isInsideBoundary(x, y). */
    predicate IsInsideBoundary(x: real, y: real)
      reads this
    {
      Inside(At(x, y))
    }

    /** release: drop the column table. */
    method Release()
      modifies this
      ensures columns == map[]
      ensures forall x: real, y: real :: !IsInsideBoundary(x, y) && !IsDefined(x, y)
    {
      columns := map[];
    }

    /**
     * randomize: draw integer positions inside the bounds until one is defined, at most
     * 31 times (the first draw and 30 retries); the last draw is kept even when it is
     * undefined. Each _.random draw is an arbitrary integer between its two bounds.
     * The position is returned rather than written into the caller's object.
     */
    method Randomize() returns (x: int, y: int, draws: nat)
      ensures (bounds.x <= x <= bounds.xMax) || (bounds.xMax <= x <= bounds.x)
      ensures (bounds.y <= y <= bounds.yMax) || (bounds.yMax <= y <= bounds.y)
      ensures 1 <= draws <= 31
      ensures !IsDefined(x as real, y as real) ==> draws == 31
    {
      var safetyNet := 0;
      x := RandomBetween(bounds.x, bounds.xMax);
      y := RandomBetween(bounds.y, bounds.yMax);
      draws := 1;
      while !IsDefined(x as real, y as real) && safetyNet < 30
        invariant 0 <= safetyNet <= 30 && draws == safetyNet + 1
        invariant (bounds.x <= x <= bounds.xMax) || (bounds.xMax <= x <= bounds.x)
        invariant (bounds.y <= y <= bounds.yMax) || (bounds.yMax <= y <= bounds.y)
        decreases 30 - safetyNet
      {
        safetyNet := safetyNet + 1;
        x := RandomBetween(bounds.x, bounds.xMax);
        y := RandomBetween(bounds.y, bounds.yMax);
        draws := draws + 1;
      }
      if !IsDefined(x as real, y as real) {
        // the failed test `safetyNet++ < 30` still counts the last draw
        assert safetyNet == 30;
      }
    }
  }

  /**
   * Math.round(_.random(lower, upper)) on integer bounds: an arbitrary integer between
   * them, inclusive, whichever is larger.
   */
  method RandomBetween(lower: int, upper: int) returns (n: int)
    ensures (lower <= n <= upper) || (upper <= n <= lower)
  {
    if lower <= upper {
      n :| lower <= n <= upper;
    } else {
      n :| upper <= n <= lower;
    }
  }
}
