# earth: from weather grid to animated wind particles

This project models the core of the "earth" wind map in Dafny. The pipeline has four stages:

- **Grid.** A decoded GRIB2 record is laid out as a grid of rows (scan mode 0). The grid is
  sampled bilinearly, and longitude wraps around the circle.
- **Bounds.** The globe's projected bounding box is clamped to the pixel grid of the view.
- **Field.** Inside those bounds, `interpolateField` visits every second column and every
  second row of the visible pixels:
  - it projects each one back to longitude and latitude;
  - it samples the wind there and corrects the sample for the projection's distortion;
  - it stores the result, over a 2x2 block, in a sparse table of columns;
  - it paints the overlay colour into the mask.

  The work runs in batches that yield to the scheduler when a time budget runs out.
  `createField` wraps the finished table in a lookup at the nearest pixel, with two
  sentinel vectors: one for a hole inside the field and one for a point outside it.
- **Animation.** `animate` seeds particles in the field. On every frame it evolves them one
  step along the wind, sorts the visible ones into intensity buckets, and draws each bucket.

`newAgent`, the task runner that drives these stages, is modelled as well. The model keeps
its cancellation semantics: a task whose cancel token is set can still finish, but it can no
longer change the agent's value, and it emits nothing except `fail` and, when it is cancelled
before its debounced run fires, `submit`.

The modules follow the program's structure:

- `Values`: shared datatypes — `Option`, `Result` and `JsNumber`, a JavaScript number that
  may be NaN or ±Infinity.
- `Micro`: `floorMod`, `clamp`, `proportion`, `spread` and `windIntensityColorScale`.
- `Globes`: `ensureNumber` and `clampedBounds`.
- `Products`: `buildGrid`, `interpolate` and the bilinear builders.
- `Agents`: `newAgent`, as a pure transition function over an explicit agent state, plus a
  class whose methods follow that function.
- `Masks`: `createMask`, as pure byte functions plus a class over an `array<byte>`.
- `Fields`: `createField`.
- `FieldBuilders`: `interpolateField`, as pure loop functions plus a class whose methods run
  the loops in place.
- `Animations`: `animate`, as pure `EvolveFrom`/`Drawn` specifications plus a class over an
  `array<Particle>`.

The code at `libs/earth/1.0.0/bundle.js:360-634` repeats `libs/earth/1.0.0/earth.js:348-622`
line for line. That code is modelled once and cited from `earth.js`.

Where the code and its prose description differ, the model follows the code:

- `ensureNumber` lets ±Infinity through. An upper-left corner at +Infinity therefore gives a
  clamped `x` of +Infinity and a width of -Infinity (`Globes.ClampedBoundsInfiniteLeft`);
  it does not give a clamped finite box.
- `randomize` stops after 31 draws, not 30: the first draw plus 30 retries. It keeps the last
  draw even when that point is undefined.
- `particleCount` is reduced on mobile *after* rounding. The seeding loop `i < particleCount`
  then makes the smallest whole number of particles that reaches the possibly fractional
  count.

## Model

| member | source | states |
|---|---|---|
| Values.JsRound | libs/earth/1.0.0/earth.js:387-388 | Math.round picks the integer n with n - 1/2 <= r < n + 1/2 (halves round up) |
| Micro.FloorMod | libs/earth/1.0.0/bundle.js:1335-1340 | floorMod is a - n * floor(a / n), with a result equal to n mapped to 0; FloorModRange, FloorModUnique and FloorModPeriodic state its range, uniqueness and period |
| Micro.FloorModRange | libs/earth/1.0.0/bundle.js:1335-1340 | for n > 0, floorMod(a, n) lies in [0, n) and differs from a by a whole multiple of n |
| Micro.FloorModUnique | libs/earth/1.0.0/bundle.js:1335-1340 | the value in [0, n) congruent to a modulo n is the one floorMod returns |
| Micro.FloorModPeriodic | libs/earth/1.0.0/bundle.js:1335-1340 | floorMod(a + k*n, n) == floorMod(a, n) for every integer k |
| Micro.Clamp | libs/earth/1.0.0/bundle.js:1354-1356 | the result lies in [low, high] when low <= high; x is kept inside the range, replaced by low below it and by high above it; an inverted range gives low |
| Micro.Proportion | libs/earth/1.0.0/bundle.js:1363-1365 | the fraction lies in [0, 1]; it is 0 at or below low and 1 at or above high |
| Micro.Spread | libs/earth/1.0.0/bundle.js:1370-1372 | spread scales p in [0, 1] to [low, high]; SpreadOfProportion and ProportionOfSpread show it inverts proportion |
| Micro.SpreadOfProportion | libs/earth/1.0.0/bundle.js:1363-1372 | spread(proportion(x)) is x clamped to [low, high] |
| Micro.ProportionOfSpread | libs/earth/1.0.0/bundle.js:1363-1372 | proportion(spread(p)) == p for p in [0, 1], so the two are inverses on that interval |
| Micro.WindIntensityColorScale | libs/earth/1.0.0/bundle.js:1542-1551 | the loop yields 170/step + 1 styles, style k being the grey of level 85 + k*step, and keeps maxWind for indexFor |
| Micro.ColorScale.IndexFor | libs/earth/1.0.0/bundle.js:1547-1549 | indexFor is floor(min(m, maxWind) / maxWind * (styles - 1)); IndexForRange, IndexForMonotone and IndexForSaturates state its range, monotonicity and saturation |
| Micro.IndexForRange | libs/earth/1.0.0/bundle.js:1547-1549 | for a positive maxWind and a non-negative speed, indexFor lands on one of the styles |
| Micro.IndexForMonotone | libs/earth/1.0.0/bundle.js:1547-1549 | a faster wind never gets a lower style index |
| Micro.IndexForSaturates | libs/earth/1.0.0/bundle.js:1547-1549 | every speed at or above maxWind maps to the last (brightest) style |
| Micro.IntensityScaleOfStep10 | libs/earth/1.0.0/earth.js:28 | with INTENSITY_SCALE_STEP = 10 there are 18 styles, running from grey 85 to grey 255 |
| Globes.EnsureNumber | libs/earth/1.0.0/bundle.js:960-962 | finite numbers and ±Infinity pass through; NaN becomes the fallback |
| Globes.LowClamp | libs/earth/1.0.0/bundle.js:972-973 | an upper-left coordinate becomes max(floor(a), 0), is never negative, maps NaN and -Infinity to 0, and keeps +Infinity |
| Globes.HighClamp | libs/earth/1.0.0/bundle.js:974-975 | a lower-right coordinate becomes min(ceil(a), size - 1), is never above size - 1, maps NaN and +Infinity to size - 1, and keeps -Infinity |
| Globes.Extent | libs/earth/1.0.0/bundle.js:976 | for integer corners the width is hi - lo + 1; from x = +Infinity it is -Infinity |
| Globes.ClampedBounds | libs/earth/1.0.0/bundle.js:969-977 | x and y are at least 0 (or +Infinity), xMax is at most width-1 and yMax at most height-1 (or -Infinity), each NaN corner coordinate taking its fallback; nothing orders the corners, so the box may be empty |
| Globes.ClampedBoundsFinite | libs/earth/1.0.0/bundle.js:969-977 | when no corner lies at the infinity that ensureNumber lets through, the bounds are integers with x, y >= 0, xMax <= width-1 and yMax <= height-1, and width and height are xMax - x + 1 and yMax - y + 1; the box may be empty |
| Globes.ClampedBoundsInfiniteLeft | libs/earth/1.0.0/bundle.js:962-976 | an upper-left x of +Infinity survives the clamp and makes the width -Infinity |
| Agents.Init | libs/earth/1.0.0/bundle.js:1757-1777 | a new agent holds the initial value, one uncancelled token, and has emitted nothing |
| Agents.Step | libs/earth/1.0.0/bundle.js:1712-1785 | every event keeps the agent well formed, creates no fewer tokens, never clears a cancel flag, never revives a debounced-away call, and only appends notices |
| Agents.Replay | libs/earth/1.0.0/bundle.js:1707-1789 | a sequence of events keeps the agent well formed |
| Agents.SubmitCancelsPrevious | libs/earth/1.0.0/bundle.js:1779-1785 | submit sets the previous token's cancel flag, installs a fresh uncancelled token, and supersedes the pending debounced call |
| Agents.CancelledEventsIgnored | libs/earth/1.0.0/bundle.js:1726-1741 | once a token is cancelled, its argument resolution, its rejection and its result change neither the value nor the notices, and do not invoke the task |
| Agents.RunInvokesUncancelled | libs/earth/1.0.0/bundle.js:1726-1728 | run invokes the task exactly when its token is not cancelled |
| Agents.CancelledBeforeDebounceSubmits | libs/earth/1.0.0/bundle.js:1747-1751 | a task submitted and then cancelled before its debounced run still emits `submit`, since the debounced step does not look at the token |
| Agents.FailNeverSuppressed | libs/earth/1.0.0/bundle.js:1743-1745 | a handler exception always emits "fail", cancelled or not |
| Agents.ValueChangesOnlyOnAccept | libs/earth/1.0.0/bundle.js:1730-1735 | the value changes only when a running, uncancelled task fulfils, and then it becomes that result |
| Agents.Without | libs/earth/1.0.0/bundle.js:1726-1741 | filtering a trace by token t leaves no event that t's cancellation absorbs |
| Agents.AgreeAbsorbed | libs/earth/1.0.0/bundle.js:1726-1741 | an event absorbed by t's cancellation, taken by one agent only, keeps two agents in agreement apart from t |
| Agents.AgreeShared | libs/earth/1.0.0/bundle.js:1712-1785 | any other event, taken by both agents, keeps them in agreement apart from t |
| Agents.ReplayAgree | libs/earth/1.0.0/bundle.js:1707-1789 | replaying a trace, and the same trace without t's events, from agreeing agents ends in agreeing agents |
| Agents.CancelledTaskUnobservable | libs/earth/1.0.0/bundle.js:1726-1741 | whatever order a cancelled task's events arrive in, the value and the notices are those of the run without them |
| Agents.RequestedSticky | libs/earth/1.0.0/bundle.js:1713-1716 | a cancel flag, once set, stays set over any trace |
| Agents.SupersededResultDropped | libs/earth/1.0.0/bundle.js:1779-1785 | after a second submit, the first task's result neither updates the value nor emits "update" |
| Agents.CancelledWorkExample | libs/earth/1.0.0/bundle.js:1726-1735 | submit, run, cancel, then fulfil: the value stays the initial one and no "update" is emitted |
| Agents.Agent.constructor | libs/earth/1.0.0/bundle.js:1757-1789 | the object's state is the initial agent state |
| Agents.Agent.Value | libs/earth/1.0.0/bundle.js:1764-1766 | value() returns the current value |
| Agents.Agent.Submit | libs/earth/1.0.0/bundle.js:1779-1785 | submit takes the object from its state to the Step of Submit |
| Agents.Agent.Cancel | libs/earth/1.0.0/bundle.js:1712-1717 | cancel takes the object from its state to the Step of Cancel |
| Agents.Agent.Debounce | libs/earth/1.0.0/bundle.js:1747-1751 | the debounce timer firing takes the object to the Step of Debounce |
| Agents.Agent.ArgsResolved | libs/earth/1.0.0/bundle.js:1726-1728 | argument resolution takes the object to the Step of ArgsResolved |
| Agents.Agent.ArgsRejected | libs/earth/1.0.0/bundle.js:1737-1741 | argument rejection takes the object to the Step of ArgsRejected |
| Agents.Agent.Settle | libs/earth/1.0.0/bundle.js:1730-1741 | settlement of the task's result takes the object to the Step of Settle |
| Agents.Agent.HandlerFault | libs/earth/1.0.0/bundle.js:1743-1753 | an exception reaching fail takes the object to the Step of HandlerFault |
| Products.BuildGrid | libs/earth/1.0.0/bundle.js:2563-2587 | ny rows of nx cells, cell (j, i) holding data(j*nx + i), and on a grid that wraps an extra last column equal to the first |
| Products.Interpolate | libs/earth/1.0.0/bundle.js:2589-2620 | interpolate: undefined when dx or dy is 0, else SampleAt of the fractional column and row indices; InterpolateCases, InterpolatePeriodic, InterpolateAtNode, InterpolateLastRow and InterpolateAcrossSeam state its cases |
| Products.SampleAt | libs/earth/1.0.0/bundle.js:2602-2619 | the builder's weighting of the four grid points at the floor and floor + 1 of both indices, or null when a row or a point is missing |
| Products.InterpolateCases | libs/earth/1.0.0/bundle.js:2589-2620 | interpolate returns a value exactly when the four surrounding points exist; then the column index lies in [0, 360/dx) and the builder receives offsets in [0, 1) |
| Products.InterpolatePeriodic | libs/earth/1.0.0/bundle.js:2590 | shifting the longitude by whole turns does not change the sample |
| Products.InterpolateAtNode | libs/earth/1.0.0/bundle.js:2589-2620 | at a grid node the builder receives offsets 0 and the node's four neighbours |
| Products.LonIndexAtColumn | libs/earth/1.0.0/bundle.js:2590 | the longitude of column i maps back to index i |
| Products.LatIndexAtRow | libs/earth/1.0.0/bundle.js:2591 | the latitude of row j maps back to index j |
| Products.InterpolateLastRow | libs/earth/1.0.0/bundle.js:2608-2619 | on the last row there is no row below, so nothing is interpolated |
| Products.InterpolateAcrossSeam | libs/earth/1.0.0/bundle.js:2589-2620 | on a laid-out grid that wraps, a sample whose floor column is nx - 1 weighs the cells of columns nx - 1 and 0 of rows fj and fj + 1 as g00, g10, g01, g11, and is null exactly when one of those four is missing |
| Products.SeamColumn | libs/earth/1.0.0/bundle.js:2581-2584 | on a laid-out grid that wraps, column nx of every row reads what column 0 reads |
| Products.BilinearScalar | libs/earth/1.0.0/bundle.js:2521-2525 | bilinearInterpolateScalar, the weighting with weights (1-x)(1-y), x(1-y), (1-x)y and xy; BilinearScalarCorners, BilinearWeightsSumToOne and BilinearScalarBetween state its corners, its weight sum and its bounds |
| Products.BilinearScalarCorners | libs/earth/1.0.0/bundle.js:2521-2525 | at the four corners the scalar builder returns the corner values |
| Products.BilinearWeightsSumToOne | libs/earth/1.0.0/bundle.js:2521-2525 | four equal corners give that value everywhere: the weights sum to one |
| Products.BilinearScalarBetween | libs/earth/1.0.0/bundle.js:2521-2525 | inside the cell the result lies between the lowest and highest corner |
| Products.LerpBetween | libs/earth/1.0.0/bundle.js:2521-2525 | linear interpolation by t in [0, 1] stays between its end points' bounds |
| Products.LerpAbove | libs/earth/1.0.0/bundle.js:2521-2525 | linear interpolation by t in [0, 1] of values above lo stays above lo |
| Products.BilinearScalarExample | libs/earth/1.0.0/bundle.js:2521-2525 | the cell centre of corners 1, 2, 3, 4 is 2.5 |
| Products.BilinearVector | libs/earth/1.0.0/bundle.js:2527-2534 | u and v are each the scalar builder applied to the corners' u and v |
| Products.ExampleGridSample | libs/earth/1.0.0/bundle.js:2589-2620 | on a 2x2 grid of 1, 2, 3, 4 the centre samples to 2.5 |
| Products.WrapExample | libs/earth/1.0.0/bundle.js:2590 | longitude 359.5 samples the same as -0.5 |
| Masks.Visible | libs/earth/1.0.0/earth.js:365-368 | isVisible: the pixel's alpha byte exists and is non-zero; VisibleAfterSet and SetPixelFrame state how set changes it |
| Masks.WriteByte | libs/earth/1.0.0/earth.js:371-374 | a typed-array store changes only its own index, and nothing when the index is outside the buffer |
| Masks.SetPixel | libs/earth/1.0.0/earth.js:369-376 | set keeps the buffer's length; SetPixelWrites and SetPixelBytes state its bytes |
| Masks.SetPixelWrites | libs/earth/1.0.0/earth.js:369-376 | set writes r, g, b, a at the pixel's four bytes and keeps every other byte |
| Masks.SetPixelBytes | libs/earth/1.0.0/earth.js:369-376 | after set, each byte of the pixel holds the colour's component for its position (r, g, b, a), and every other byte is kept |
| Masks.ReadSameVisible | libs/earth/1.0.0/earth.js:365-368 | two buffers whose four bytes of a pixel read alike agree on whether it is visible |
| Masks.VisibleAfterSet | libs/earth/1.0.0/earth.js:365-376 | after set, the pixel is visible exactly when the colour's alpha is non-zero |
| Masks.FlatIndexInjective | libs/earth/1.0.0/earth.js:366 | within a row of length width, two pixels with the same offset are the same pixel |
| Masks.PixelsDisjoint | libs/earth/1.0.0/earth.js:366-374 | the four-byte ranges of two different pixels do not overlap |
| Masks.SetPixelFrame | libs/earth/1.0.0/earth.js:365-376 | set on one pixel does not change whether any other pixel is visible |
| Masks.Mask.constructor | libs/earth/1.0.0/earth.js:354-361 | the mask holds the canvas's width, height and RGBA bytes |
| Masks.Mask.IsVisible | libs/earth/1.0.0/earth.js:365-368 | isVisible reads the alpha byte, and a read outside the buffer is not visible |
| Masks.Mask.Set | libs/earth/1.0.0/earth.js:369-376 | the new bytes are SetPixel of the old ones |
| Fields.Lookup | libs/earth/1.0.0/earth.js:386-389 | field(x, y): the entry at the rounded coordinates, or NULL_WIND_VECTOR; LookupCases and LookupNearestPixel state its cases |
| Fields.Field.At | libs/earth/1.0.0/earth.js:386-389 | the field object's lookup is Lookup over its current table |
| Fields.Field.IsDefined | libs/earth/1.0.0/earth.js:394-396 | isDefined: the entry read is a wind with a magnitude; DefinedImpliesInside and HoleInsideUndefined relate it to isInsideBoundary |
| Fields.Field.IsInsideBoundary | libs/earth/1.0.0/earth.js:403-405 | isInsideBoundary: the entry read is not NULL_WIND_VECTOR; ReleasedIsOutside shows no point is inside after release |
| Fields.DefinedImpliesInside | libs/earth/1.0.0/earth.js:394-405 | isDefined implies isInsideBoundary |
| Fields.LookupCases | libs/earth/1.0.0/earth.js:386-389 | a point reads NULL_WIND_VECTOR exactly when its nearest pixel has no entry; otherwise it reads the stored entry |
| Fields.HoleInsideUndefined | libs/earth/1.0.0/earth.js:394-405 | a HOLE_VECTOR entry is inside the boundary but not defined |
| Fields.RoundInteger | libs/earth/1.0.0/earth.js:387-388 | Math.round of an integer is that integer |
| Fields.LookupNearestPixel | libs/earth/1.0.0/earth.js:386-389 | every point reads the entry of its nearest pixel |
| Fields.ReleasedIsOutside | libs/earth/1.0.0/earth.js:409-411 | after release every point is outside and undefined |
| Fields.Field.constructor | libs/earth/1.0.0/earth.js:380-427 | the field holds the given columns and bounds, and the mask's bytes as its overlay |
| Fields.Field.Release | libs/earth/1.0.0/earth.js:409-411 | the table becomes empty, so no point is inside or defined |
| Fields.Field.Randomize | libs/earth/1.0.0/earth.js:413-423 | the position lies between the bounds; there are 1 to 31 draws, and an undefined result means all 31 were made |
| Fields.RandomBetween | libs/earth/1.0.0/earth.js:417-418 | the rounded _.random(lower, upper) is an integer between the two, whichever is larger |
| FieldBuilders.OverlayAlphaIsFloor | libs/earth/1.0.0/earth.js:27 | OVERLAY_ALPHA is floor(0.4 * 255) = 102 |
| FieldBuilders.Distort | libs/earth/1.0.0/earth.js:434-443 | distort leaves the magnitude untouched |
| FieldBuilders.DistortIdentity | libs/earth/1.0.0/earth.js:434-443 | under the identity tensor distort only scales u and v by the velocity scale |
| FieldBuilders.DistortAdditive | libs/earth/1.0.0/earth.js:434-443 | distort maps the sum of two winds to the sum of their images |
| FieldBuilders.PixelOutcome | libs/earth/1.0.0/earth.js:471-494 | without a distinct overlay, a pixel that stores HOLE_VECTOR is painted TRANSPARENT_BLACK |
| FieldBuilders.PaintBlock | libs/earth/1.0.0/earth.js:494 | the four chained set calls keep the buffer's length; PaintBlockWrites, PaintBlockColors, PaintBlockKeeps and PaintBlockFrame state their effect |
| FieldBuilders.PaintBlockWrites | libs/earth/1.0.0/earth.js:494 | each byte of the 2 x 2 block at (x, y) holds the colour's component for its position, and every other byte is kept |
| FieldBuilders.PaintBlockColors | libs/earth/1.0.0/earth.js:494 | each of the block's four pixels holds the painted colour |
| FieldBuilders.PaintBlockKeeps | libs/earth/1.0.0/earth.js:494 | every pixel outside the block, in a column of the view, reads the same four bytes as before |
| FieldBuilders.PaintBlockFrame | libs/earth/1.0.0/earth.js:494 | painting a pixel's 2x2 block leaves every pixel outside the block as visible as it was |
| FieldBuilders.ColumnFrom | libs/earth/1.0.0/earth.js:470-496 | the row loop of interpolateColumn keeps the mask's length; ColumnFromRows, ColumnFromKeys, ColumnFromPaints, ColumnFromPixelFrame and ColumnFromMasked state what it builds |
| FieldBuilders.ColumnAt | libs/earth/1.0.0/earth.js:468-497 | interpolateColumn keeps the mask's length; ColumnAtKeys and ColumnAtPaints state what it stores and paints |
| FieldBuilders.BuildFrom | libs/earth/1.0.0/earth.js:506-515 | the column loop of batchInterpolate without yielding keeps the mask's length; BuildMatchesMask and BlockLookup state what it builds |
| FieldBuilders.BatchFrom | libs/earth/1.0.0/earth.js:502-516 | a batch that yields has not failed; BatchesComposeIntoBuild relates batches to BuildFrom |
| FieldBuilders.BatchesComposeIntoBuild | libs/earth/1.0.0/earth.js:502-516 | yielding changes nothing: a batch either completes the build, or stops where resuming gives the result of one uninterrupted run |
| FieldBuilders.ColumnFromPixelFrame | libs/earth/1.0.0/earth.js:470-496 | the rows from y on leave every pixel of a column other than x and x + 1, and every pixel above row y, reading its four bytes as before |
| FieldBuilders.ColumnFromFrame | libs/earth/1.0.0/earth.js:470-496 | the rows from y on leave every pixel of a column other than x and x + 1, and every pixel above row y, as visible as it was |
| FieldBuilders.ColumnFromMasked | libs/earth/1.0.0/earth.js:470-495 | every stride pixel of column x, from row y on, that the original mask hides is still hidden when the rows are done |
| FieldBuilders.ColumnFromRows | libs/earth/1.0.0/earth.js:470-495 | a completed column holds stride row y exactly when pixel (x, y) was visible, and then holds the pixel's own sample, also at y + 1 |
| FieldBuilders.ColumnFromKeys | libs/earth/1.0.0/earth.js:470-495 | a completed row loop holds, from row y on, exactly the keys of the stride rows whose pixel the original mask shows, each at y and y + 1 |
| FieldBuilders.ColumnFromPaints | libs/earth/1.0.0/earth.js:470-495 | a completed row loop over untouched columns paints each stride block in its pixel's colour when the original mask shows the pixel, and leaves it reading as in the original mask otherwise |
| FieldBuilders.ColumnAtKeys | libs/earth/1.0.0/earth.js:468-497 | a completed interpolateColumn(x) holds exactly the keys of the stride rows whose pixel was visible, each at y and y + 1 |
| FieldBuilders.ColumnAtPaints | libs/earth/1.0.0/earth.js:468-497 | a completed interpolateColumn(x) paints column x's stride blocks as the original mask dictates and leaves every column from x + 2 on as it was |
| FieldBuilders.BuildFromPaints | libs/earth/1.0.0/earth.js:506-515 | the completed column loop paints every stride block as the original mask dictates |
| FieldBuilders.BuildFromKeys | libs/earth/1.0.0/earth.js:506-515 | the completed column loop holds exactly the keys of the stride columns before bounds.xMax, each at x and x + 1 |
| FieldBuilders.BuildFromGood | libs/earth/1.0.0/earth.js:497-515 | the column loop keeps every finished column at x and x + 1, and never reveals a hidden stride pixel |
| FieldBuilders.BuildMatchesMask | libs/earth/1.0.0/earth.js:468-517 | a completed field holds exactly the stride columns, each at x and x + 1. Each column holds exactly the stride rows whose pixel was visible, each at y and y + 1 with that pixel's sample. A visible pixel's 2 x 2 block holds the pixel's overlay colour; a hidden pixel's block reads as in the original mask |
| FieldBuilders.BlockLookup | libs/earth/1.0.0/earth.js:386-389 | over each pixel of a stride block the finished field reads the stride pixel's sample when it was visible, and NULL_WIND_VECTOR when it was hidden |
| FieldBuilders.FieldBuilder.constructor | libs/earth/1.0.0/earth.js:460-466 | building starts from an empty table at column bounds.x |
| FieldBuilders.FieldBuilder.InterpolateColumn | libs/earth/1.0.0/earth.js:468-498 | the table and the mask bytes become the column step ColumnAt of the old state; ColumnAtKeys and ColumnAtPaints state what that step stores and paints |
| FieldBuilders.FieldBuilder.InterpolateRow | libs/earth/1.0.0/earth.js:471-495 | one row throws exactly when its pixel is visible and a callee throws, and then leaves the mask as it was; otherwise the column and the mask become the row step StepResult |
| FieldBuilders.FieldBuilder.PaintPixel | libs/earth/1.0.0/earth.js:494 | the mask bytes become PaintBlock of the old bytes: each byte of the 2 x 2 block holds the colour's component for its position, every other byte is kept (BlockWritten), and all four pixels hold the colour |
| FieldBuilders.FieldBuilder.BatchInterpolate | libs/earth/1.0.0/earth.js:502-524 | a cancelled call changes neither the table, the column nor the mask, and resolves. Otherwise table, mask and column follow BatchFrom; the call yields exactly when the budget ran out and rejects exactly on an exception, with its error. A new field is returned exactly on resolve, over the table, the bounds and the mask's bytes |
| Animations.ParticleCount | libs/earth/1.0.0/earth.js:537-547 | the seeding loop makes the smallest whole number of particles that reaches Math.round(width * 7), times 0.75 on mobile |
| Animations.DesktopParticleCount | libs/earth/1.0.0/earth.js:537 | on a desktop there are 7 particles per pixel of width |
| Animations.MobileParticleCountExample | libs/earth/1.0.0/earth.js:537-540 | a one-pixel-wide mobile view targets 5.25 particles and gets 6 |
| Animations.Aged | libs/earth/1.0.0/earth.js:577 | age += 1; EvolvedAge and EvolveAgesAfterTick state the resulting age bounds |
| Animations.Respawned | libs/earth/1.0.0/earth.js:552-554 | a particle older than MAX_PARTICLE_AGE moves to the drawn spawn position with age 0; any other particle is unchanged |
| Animations.Evolved | libs/earth/1.0.0/earth.js:555-575 | over no wind the particle gets MAX_PARTICLE_AGE. A bucketed particle keeps its position, its target is defined, and it is bucketed at the wind's speed. Otherwise it moves to an undefined point |
| Animations.BucketFor | libs/earth/1.0.0/earth.js:569 | a bucket that is found is one of the styles |
| Animations.BucketForDefined | libs/earth/1.0.0/earth.js:569 | for a positive maxIntensity, a non-negative speed always has its indexFor bucket |
| Animations.EmptyBuckets | libs/earth/1.0.0/earth.js:536 | one empty bucket per style |
| Animations.EvolveFrom | libs/earth/1.0.0/earth.js:549-579 | evolve keeps the particle and bucket counts and leaves the particles it has not reached untouched |
| Animations.EvolveOutcome | libs/earth/1.0.0/earth.js:549-579 | when no push throws, each particle ends as its own step says, aged by one, and bucket k holds exactly the particles classified into k |
| Animations.OutcomeExtend | libs/earth/1.0.0/earth.js:552-576 | one particle more: a step that does not throw replaces particle i by its aged result and appends i to its bucket only, so the outcome of the first i steps extends to i + 1 |
| Animations.EvolveFaultCause | libs/earth/1.0.0/earth.js:569 | a push throws only for a speed that has no bucket |
| Animations.NoFaultForValidSpeeds | libs/earth/1.0.0/earth.js:569 | with a positive maxIntensity and non-negative stored speeds, evolve never throws |
| Animations.EvolvedAge | libs/earth/1.0.0/earth.js:551-577 | one step keeps the age in [0, 100], and within [1, 101] after the increment |
| Animations.EvolveKeepsAges | libs/earth/1.0.0/earth.js:549-579 | ages stay within [0, MAX_PARTICLE_AGE + 1] through evolve, whether or not it throws |
| Animations.EvolveAgesAfterTick | libs/earth/1.0.0/earth.js:549-579 | after an evolve that does not throw, every age lies in [1, MAX_PARTICLE_AGE + 1] |
| Animations.BucketedTargetDefined | libs/earth/1.0.0/earth.js:565-569 | a bucketed particle is one already visited, and its target is a defined point of the field |
| Animations.EscapedParticleIsReseeded | libs/earth/1.0.0/earth.js:552-560 | a particle over no wind reaches age 101 and is seeded again, with age 0, on the next frame |
| Animations.Landed | libs/earth/1.0.0/earth.js:598-599 | drawing moves a particle onto its target and changes nothing else |
| Animations.DrawnExtend | libs/earth/1.0.0/earth.js:593-605 | the particles drawn by the first b + 1 buckets are those of the first b buckets plus bucket b |
| Animations.Animation.constructor | libs/earth/1.0.0/earth.js:535-547 | the setup builds 18 intensity styles for maxIntensity, empty buckets, and particleCount particles with ages in [0, 100], each seeded at a whole-pixel position x in [bounds.x, bounds.xMax], y in [bounds.y, bounds.yMax] |
| Animations.Animation.Evolve | libs/earth/1.0.0/earth.js:549-579 | particles and buckets become EvolveFrom of the old particles. The spawn positions are drawn exactly for particles older than MAX_PARTICLE_AGE, and lie within the field's bounds |
| Animations.Animation.StepParticle | libs/earth/1.0.0/earth.js:551-575 | one particle's step is Evolved at the position drawn for it, drawn exactly when the particle is too old |
| Animations.Animation.Draw | libs/earth/1.0.0/earth.js:593-605 | every particle in some bucket lands on its target, and every other particle is unchanged |
| Animations.Animation.Frame | libs/earth/1.0.0/earth.js:608-621 | on cancel the field is released and nothing else changes. Otherwise evolve runs; if evolve throws, the error is reported and the frame stops, else every bucketed particle lands on its target. Whenever evolve runs, exactly the visited particles older than MAX_PARTICLE_AGE are reseeded, each at a position within the bounds |

## Left out

- FloorMod: a zero modulus, which yields NaN in JavaScript, is excluded by `requires n != 0.0`. With exact reals the `f === n` rounding guard is dead code; `FloorModRange` shows that the raw remainder is already below n.
- Proportion: an empty range, which yields NaN in JavaScript, is excluded by `requires low != high`.
- Micro.WindIntensityColorScale: `requires step > 0`. For a step of 0 or less the loop at `libs/earth/1.0.0/bundle.js:1544` never ends; its only caller (`libs/earth/1.0.0/earth.js:535`) passes `INTENSITY_SCALE_STEP`, which is 10.
- Micro.ColorScale.IndexFor: a zero maxWind (NaN in JavaScript) is excluded. `Animations.BucketFor` models that case as the push that throws.
- Products.BilinearVector: the magnitude `Math.sqrt(u*u + v*v)` is not modelled. The grid's own builder is a parameter of `Interpolate`, so the magnitude enters the field as an opaque part of each `Sample`.
- Products.Interpolate: JavaScript floating-point rounding in `floorMod` and in the index arithmetic is not modelled; the model uses exact reals. A NaN coordinate is not modelled.
- Products.Interpolate: a product's `data(i)` is a parameter returning `Option`, so a missing value at any grid point is modelled, as the OSCAR currents product returns null where u or v is missing (`libs/earth/1.0.0/bundle.js:2426`). `µ.isValue` is modelled as `Some`; a NaN stored in the grid is not modelled.
- `projection.invert`, `µ.distortion` and `scale.gradient` are calls into code this model does not include. They are parameters of `FieldBuilders.Env`, each of which may throw (a `Result`). `Env.interpolate` and `Env.overlay` stand for `Products.Interpolate(grid, builder, ·, ·)` of the primary and overlay grids; they are parameters so that a throwing builder can be modelled. Latitude is taken as a real.
- Infinite bounds are not modelled downstream: `FieldBuilders` and `Animations` take integer `Globes.Bounds`. `Globes.ClampedBounds` can give +Infinity (`Globes.ClampedBoundsInfiniteLeft`); in the source `x < bounds.xMax` then fails at once, so `batchInterpolate` resolves with an empty table, and `Math.round(-Infinity * 7)` seeds no particles.
- Canvas output is not modelled: the mask polygon fill, the stroked trails, the fade `fillRect`, `lineWidth` and `fillStyle`.
- The mask's bytes are produced by canvas rendering and are a constructor argument of `Masks.Mask`. Uint8ClampedArray clamping cannot arise, because every colour component is a byte.
- `Date.now()` and `MAX_TASK_TIME` become the oracle `expired(k)`, which says whether the budget ran out after the k-th column. `setTimeout` rescheduling, `report.progress`, `report.status`, `report.error` and logging are not modelled; a yielded batch is resumed by calling `BatchInterpolate` again.
- `_.random` is an arbitrary choice (`:|`) between its bounds, and `µ.isMobile()` is a parameter.
- Fields.Field.Randomize: the position is returned rather than written into the caller's object.
- The initial `xt` and `yt` of a particle, which are `undefined` in JavaScript until its first bucketed step, are set to its position.
- Particles live in an array and buckets hold particle indices. The indices stand for the object references the source pushes, so aliasing is by index.
- `columns[x]` and `columns[x + 1]` share one array in the source; the model stores equal values. The `column[y]`/`column[y + 1]` entries are modelled the same way.
- The agent's `Backbone.Events` plumbing and the `return this` chaining are not modelled; the triggered events are the `notices`. `_.debounce(…, 0)` is modelled as a single pending call that a later submit supersedes. Task functions and their arguments are opaque: they appear only through the events.
- The null-argument guards (`if (!globe …) return`) at the top of `createMask`, `interpolateField` and `animate` are not modelled. The user-interface parts of both files are outside this model: the input controller, the renderer, the navigation, the hash parsing and formatting, and the `zeroPad`-style helpers.
- NaN and null magnitudes are not modelled: a stored wind always has a real speed, so `isDefined` is the `Wind` case.
