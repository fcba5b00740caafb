# Mass: per-body state of a 2D gravity toy

This project models `Mass`, the body of a two-dimensional N-body simulation, and
proves properties of the model in Dafny. A mass has an id from a creation
counter, a position, a velocity and an acceleration, a mass in kg and the drawing
radius derived from it, a `fixedPos` flag (an anchor that never moves), a
`hasGravity` flag, pending velocity and position deltas that the simulation
driver fills in each tick, and a trail: a queue of `(time, x, y)` samples
bounded by a time window.

Modules:

- `Vectors` (vectors.dfy): `Vec2` as a value with component-wise `Add`, which is
  what `addBy` does to its receiver.
- `Trail` (trail.dfy): the trail samples and `Step`, the trail after one
  position update. There are lemmas about one update (shape, eviction,
  appending, time order) and about a run of updates (`Run`: length bounds,
  non-emptiness, time order, one eviction per update).
- `Hue` (hue.dfy): the fill colour `draw` selects in the "size" and
  "acceleration" colour modes and in any other mode.
- `Masses` (masses.dfy): the class `Mass`, with its constructor,
  `FromPreset`, `ClearHistory`, `UpdatePos` and the colour selection of
  `draw`. It also has the class `Counter`, which stands for the static
  `Mass.count` and is passed to the constructor explicitly.

Coordinates, times and masses are exact `real`s. `Math.log2` is a parameter
`log2: real -> real`. The constant `baseKg` is a constructor parameter, and it
must be non-zero so that `kg / (baseKg / 2)` is defined. The canvas is reduced
to its width and height.

The screen check in `updatePos` treats the edges as on screen: a sample is
recorded for `0 <= x <= width` and `0 <= y <= height`. `Trail.StepAppend`
states these inclusive bounds.

## Model

| member | source | states |
|---|---|---|
| `Trail.Step` | src/mass.ts:70-89 | one update changes the trail's length by at most one either way; a non-empty trail stays non-empty; whenever the update records, the last sample is the current time with the new position, also when a sample was evicted in the same update |
| `Trail.StepShape` | src/mass.ts:70-89 | the new trail is `old[k..] + extra` with `k` at most 1 and at most one extra sample |
| `Trail.StepEviction` | src/mass.ts:70-75 | the first sample goes exactly when the trail holds more than one sample and `elapsed - first.time > window`; all other samples are kept in order; the condition does not involve the position or the trail switch |
| `Trail.StepAppend` | src/mass.ts:78-89 | a sample is appended exactly when `0 <= x <= width`, `0 <= y <= height` and trails are on; it is `(elapsed, x, y)`; otherwise nothing is appended |
| `Trail.StepChronological` | src/mass.ts:70-89 | an update at a time no earlier than the newest sample keeps the samples in time order |
| `Trail.RunLength` | src/mass.ts:70-89 | over n updates the trail shrinks or grows by at most n samples |
| `Trail.RunNonEmpty` | src/mass.ts:70-75 | eviction never empties a trail that holds a sample, over any number of updates |
| `Trail.RunChronological` | src/mass.ts:70-89 | updates driven by a clock that never runs backwards keep the trail in time order |
| `Trail.RunCatchUp` | src/mass.ts:70-75 | when all samples but the newest are stale and nothing is recorded, n updates (n below the trail's length) remove exactly the n oldest samples: one per update, never all at once |
| `Hue.SizeHue` | src/mass.ts:99-102 | the "size" hue lies in [0, 330]; it is 0 exactly when the scale is below 1 and 330 exactly when the scale reaches 330; in between it is the floor of `(r - 1) / 19 * 330` |
| `Hue.SizeHueOnScale` | src/mass.ts:100-102 | for radii in [1, 20] the clamp never changes the floor |
| `Hue.SizeHueMonotone` | src/mass.ts:100-102 | a larger radius never gets a smaller hue |
| `Hue.AccelerationHue` | src/mass.ts:104-116 | the "acceleration" hue is 0 for a fixed mass and for a zero range; otherwise it is the floor of `(scaledAcc - scaledMin) / (scaledMax - scaledMin) * 330` |
| `Hue.AccelerationHueMonotone` | src/mass.ts:114 | with `scaledMin < scaledMax`, a larger scaled acceleration never gets a smaller hue |
| `Hue.AccelerationHueInRange` | src/mass.ts:114 | a scaled acceleration inside the range gets a hue in [0, 330] |
| `Hue.AccelerationHueUnclamped` | src/mass.ts:110-115 | there is no clamping: an acceleration a range-width above the range gets a hue of at least 660, and one below the range gets a negative hue |
| `Hue.Colour` | src/mass.ts:99-120 | the fill is white exactly for modes other than "size" and "acceleration"; "size" gives `SizeHue` of the radius, in [0, 330]; "acceleration" gives `AccelerationHue`, which is 0 for a fixed mass or a zero range |
| `Masses.Counter.constructor` | src/mass.ts:19 | the counter starts at 0 with no ids issued |
| `Masses.Mass.constructor` | src/mass.ts:32-54 | the id is the counter's old value and the counter goes up by exactly one, so the id differs from and exceeds every earlier id; the config fields are taken over; the radius is `log2(kg / (baseKg / 2))`; acceleration, `accAbs`, both deltas and the trail start at zero or empty |
| `Masses.Mass.FromPreset` | src/mass.ts:21-30 | the new mass has the preset's kg, position, velocity and both flags, a fresh object, the counter's next id (different from the preset's when the preset came from the same counter), and zeroed scratch fields |
| `Masses.Mass.ClearHistory` | src/mass.ts:56-58 | the trail is empty and no other field changes |
| `Masses.Mass.UpdatePos` | src/mass.ts:60-91 | a fixed mass keeps its position, velocity and trail; otherwise `pos` gains `deltaX` and `vel` gains `deltaV` with no clamping to the canvas, and the trail becomes `Step` of the old trail; a trail in time order stays in time order when the clock is not behind the newest sample; no other field changes |
| `Masses.Mass.DrawColour` | src/mass.ts:99-120 | the fill `draw` sets, with the mass's radius, `fixedPos` and `log2(acc_abs)`: white for unknown modes, a "size" hue in [0, 330], hue 0 in "acceleration" mode for a fixed mass or when `log2(accelMin) == log2(accelMax)` |

## Left out

- Canvas rendering (`beginPath`, `arc`, `fill`, `stroke`, the `hsl(...)` strings and the loop that draws trail points, src/mass.ts:121-133): it is output to a drawing API, so only the choice of fill colour is modelled.
- `Math.log2` is a parameter. The model says nothing about what `log2(0)` or a negative argument gives (NaN, minus infinity).
- IEEE floating point: coordinates, times and hues are exact reals and integers, so there is no rounding, NaN or infinity.
- Masses.Mass.constructor: the source stores `config.pos` and `config.vel` by reference, so a later `addBy` on `pos` also moves `config.pos`. With `Vec2` as a value this sharing is lost, and `config` keeps the starting values.
- Masses.Mass.FromPreset: the source copies the preset's vectors, so the new mass is independent of the preset, in the source as in the model. But the new mass's `config.pos` and `config.vel` are the very objects stored in its `pos` and `vel`, and the model loses that sharing here too.
- The `Vec2` implementation, the constants `baseKg` and `maxAccel`, and the simulation driver (force summation, delta reset and accumulation): vec2.ts, constant.ts and sim.ts are not part of this model. Only what `Mass` uses from them is modelled: vector addition, and `baseKg` as a parameter.
- `HTMLCanvasElement` is reduced to its width and height (`Trail.Canvas`).
