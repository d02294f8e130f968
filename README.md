# PointMapper, modelled in Dafny

colorpicker-compose's `PointMapper` corrects the coordinate of a pointer
event so that it lands on a selectable part of the colour palette. It has
two strategies:

- **Image palette.** `approximatedPoint` bisects between the pointer and the
  canvas centre. The pointer is the untrusted bound. The centre is the
  trusted bound. At each step it samples the colour at the midpoint. A
  transparent midpoint replaces the untrusted bound. Any other colour
  replaces the trusted bound. It stops when the truncated distance between
  the bounds is at most 3, and answers the trusted bound.
- **HSV wheel.** `getHuePoint` leaves a point inside the wheel where it is.
  A point outside the wheel is moved back onto the circle along the ray from
  the centre. The wheel has radius `min(width / 2, height / 2)` and is
  centred on the canvas.

`PointMapper.dfy` holds one module, `PointMapper`, with the following parts:

- **Data model.** `Point`, `Size`, `Palette` and `Bounds` are datatypes.
  `Bounds` holds the pair of bisection bounds.
- **Operations.** Each of the five functions of the Kotlin object becomes a
  function: `ColorPoint`, `ApproximatedPoint`, `HuePoint`, `CenterPoint` and
  `Distance`. The recursion of `approximatedPoint` is split into one `Step`
  and the recursion `Bisect`.
- **Reference definitions.** `SquaredDistance`, `Lerp`/`OnSegment` (points of
  a segment) and `ShortOf` (points of a segment short of its far end). The
  contracts are stated against these.

Coordinates are exact reals. The model takes three things as parameters:

- **Pixel sampler.** The controller's sampler becomes `transparent: Point -> bool`.
  It answers whether the colour sampled at a point equals `Color.Transparent`.
- **Canvas size.** It becomes a `Size` argument.
- **Square root.** `kotlin.math.sqrt` becomes `sqrt: real -> real`. The model
  knows only `IsSqrt(sqrt)`: on a non-negative argument it answers the
  non-negative root.

## Model

| member | source | states |
|---|---|---|
| `PointMapper.ColorPoint` | colorpicker-compose/src/main/kotlin/com/github/skydoves/colorpicker/compose/PointMapper.kt:29-37 | The HSV wheel is served by the radial clamp, any other palette by the bisection with the pointer as untrusted and the canvas centre as trusted bound. HSV wheel: the answer is within the radius of the canvas centre, a point already inside is kept, and a point beyond is projected onto the rim along its own ray. Image palette: the answer lies between the pointer and the centre. It is opaque whenever the centre is, and it is the centre itself when the pointer is within the tolerance of it. When the pointer is transparent, a transparent point of that segment lies within the tolerance of the answer. |
| `PointMapper.Center` | colorpicker-compose/src/main/kotlin/com/github/skydoves/colorpicker/compose/PointMapper.kt:56-57 | The centre computed as `size * 0.5` is the point `(width / 2, height / 2)` that getColorPoint computes at line 31. |
| `PointMapper.Radius` | colorpicker-compose/src/main/kotlin/com/github/skydoves/colorpicker/compose/PointMapper.kt:60 | The radius is at most both centre coordinates and equal to one of them: their minimum. |
| `PointMapper.ApproximatedPoint` | colorpicker-compose/src/main/kotlin/com/github/skydoves/colorpicker/compose/PointMapper.kt:39-52 | Answers `end` when the truncated distance is at most 3. The answer is opaque whenever `end` is, and it lies on the segment from `start` to `end`. When `start` is transparent, some transparent point of that segment lies within the tolerance of the answer, so the answer sits at a transparent/opaque boundary. |
| `PointMapper.Bisect` | colorpicker-compose/src/main/kotlin/com/github/skydoves/colorpicker/compose/PointMapper.kt:44-51 | The recursion terminates: the squared distance quarters at each step. The final bounds are within the tolerance of each other. The bounds are returned unchanged exactly when the initial truncated distance is at most 3. A transparent untrusted bound stays transparent, and an opaque trusted bound stays opaque. |
| `PointMapper.Step` | colorpicker-compose/src/main/kotlin/com/github/skydoves/colorpicker/compose/PointMapper.kt:45-51 | A transparent midpoint replaces only the untrusted bound. An opaque midpoint replaces only the trusted bound. Transparency of the untrusted bound and opacity of the trusted bound are kept. The squared distance between the bounds becomes a quarter, so the distance halves. |
| `PointMapper.BisectOnSegment` | colorpicker-compose/src/main/kotlin/com/github/skydoves/colorpicker/compose/PointMapper.kt:44-51 | Both final bisection bounds are convex combinations of the two initial points. |
| `PointMapper.CenterPoint` | colorpicker-compose/src/main/kotlin/com/github/skydoves/colorpicker/compose/PointMapper.kt:69-71 | The midpoint is halfway along the segment. Its squared distance to each end is a quarter of the whole. |
| `PointMapper.Distance` | colorpicker-compose/src/main/kotlin/com/github/skydoves/colorpicker/compose/PointMapper.kt:73-80 | The truncated distance `d` is the integer square root of the squared distance: `d*d <= dist^2 < (d+1)*(d+1)`. `d <= 3` holds exactly when the squared distance is below 16. |
| `PointMapper.AbsSquare` | colorpicker-compose/src/main/kotlin/com/github/skydoves/colorpicker/compose/PointMapper.kt:76-77 | `abs(v) * abs(v)` is the square of `v`. So getDistance measures the Euclidean distance. |
| `PointMapper.IntegerRootBelowFour` | colorpicker-compose/src/main/kotlin/com/github/skydoves/colorpicker/compose/PointMapper.kt:44 | An integer square root is at most 3 exactly when the square is below 16. |
| `PointMapper.RootFloorBounds` | colorpicker-compose/src/main/kotlin/com/github/skydoves/colorpicker/compose/PointMapper.kt:74-79 | The floor of a non-negative square root is the integer square root. |
| `PointMapper.QuarterFloorDecreases` | colorpicker-compose/src/main/kotlin/com/github/skydoves/colorpicker/compose/PointMapper.kt:44-45 | Quartering a squared distance of at least 16 lowers its floor. This is the termination measure of the bisection. |
| `PointMapper.SquaredDistanceZero` | colorpicker-compose/src/main/kotlin/com/github/skydoves/colorpicker/compose/PointMapper.kt:73-80 | The squared distance is zero exactly between equal points. |
| `PointMapper.HuePoint` | colorpicker-compose/src/main/kotlin/com/github/skydoves/colorpicker/compose/PointMapper.kt:54-67 | The answer is within the radius of the centre. A point within the radius is returned unchanged, and so is the centre. A point beyond the radius moves along its own ray, strictly towards the centre, to distance exactly the radius. With radius zero every point goes to the centre. |
| `PointMapper.HuePointIdempotent` | colorpicker-compose/src/main/kotlin/com/github/skydoves/colorpicker/compose/PointMapper.kt:54-67 | Clamping twice is the same as clamping once. |
| `PointMapper.InsideCircle` | colorpicker-compose/src/main/kotlin/com/github/skydoves/colorpicker/compose/PointMapper.kt:61-66 | When `r <= radius` the point is within the radius. With radius zero it is the centre. |
| `PointMapper.ScaledOntoCircle` | colorpicker-compose/src/main/kotlin/com/github/skydoves/colorpicker/compose/PointMapper.kt:62-64 | When `r > radius`, the factor `radius / r` lies in [0, 1). The scaled point is at distance exactly `radius` from the centre, and the original point lies beyond that distance. |
| `PointMapper.LerpAsOffset` | colorpicker-compose/src/main/kotlin/com/github/skydoves/colorpicker/compose/PointMapper.kt:58-66 | getHuePoint's `offset * k + centre` is the point a fraction `k` of the way from the centre to the pointer. |
| `PointMapper.SubSegment` | colorpicker-compose/src/main/kotlin/com/github/skydoves/colorpicker/compose/PointMapper.kt:47-50 | A point on the half-segment that one bisection step keeps lies on the whole segment. |

## Left out

- IEEE float and double arithmetic is not modelled: coordinates are exact reals. The conversions at PointMapper.kt:61, 63-64 and 78 do not round, and idempotence, the exact boundary distance and the termination of the bisection hold only over the reals. With `Float` coordinates near 2^25 the midpoint can round onto a bound (bounds 2^25 and 2^25 + 4 give a midpoint equal to the first), and with that bound transparent the recursion at PointMapper.kt:48 repeats with the same arguments.
- `kotlin.math.sqrt` is a parameter `sqrt` with the property `IsSqrt`, because a concrete real square root cannot be defined here. `toInt` is applied only to a non-negative root, so it is modelled as the floor. Kotlin's `Double.toInt` also saturates at `Int.MAX_VALUE` (a distance of 2^31 or more) and maps NaN to 0; `Distance`'s integer-root bounds do not hold of the source at such distances, which leaves the `<= 3` test unaffected.
- `extractPixelColor` and the exact `Color` comparison are an abstract predicate `transparent`. The bitmap and its scaling are not part of this model.
- `ColorPickerController` (its `canvasSize` state and `isHsvColorPalette` flag) is not part of this model. Its values are the arguments `size` and `palette`.
- The `PointF` and `Color` Android types become the datatype `Point` and the predicate above.
- Recursion depth and stack use of `approximatedPoint` are not modelled.
- HuePoint: requires a canvas size with no negative side (`ValidSize`). With a negative size the radius is negative. A pointer at the centre then gives `r = 0 > radius` and divides by zero at PointMapper.kt:63. The layout never reports a negative size.
- getHuePoint computes the factor `radius / r` whenever `r > radius`, which includes a radius of zero (the factor is then zero and the point goes to the centre). The model follows the code, and the outcome is the same for every non-negative size.
- getColorPoint computes the centre as `size / 2f` and getHuePoint as `size * 0.5f`. Over the reals these are the same point, `Center`.
