# Aquarium simulation and fish colour helper, in Dafny

This project models the two pieces of logic in the aquarium app.

The first is the per-frame simulation step of the `useAquarium` hook (`hooks/useAquarium.ts`). Each step does four things:

- Every fish, in array order, counts up its animation ticker.
- A fish without a target scans the food not yet eaten this step and adopts the first strictly nearest pellet inside the detection radius. It then finds its target by id and either eats it, chases it or wanders. Wandering counts a cooldown down and turns at random when it reaches zero. Last, the fish moves by its velocity and flips each velocity component that left the tank.
- A per-step set of eaten food ids makes sure no pellet is eaten twice.
- Food sinks and is filtered by the sand line and the eaten set. Bubbles rise, and a bubble that leaves the top is replaced in place by a fresh one with the same id.

`addFood` appends one pellet at the top of the tank.

The second is `darkenColor` in `components/Fish.tsx`. It strips an optional `#`, parses six hex digits, lowers each channel by `amount` and clamps at zero. It then recomposes the value and writes it as `#` plus six zero-padded lowercase digits. The recomposition is `g | (b << 8) | (r << 16)`, so the darkened green lands in the low byte and the darkened blue in the middle byte: the output is ordered red, blue, green. The model keeps this order, and its lemmas state it.

Files:

- `wrappers.dfy`: module `Wrappers`, an `Option` type.
- `js_number.dfy`: module `JsNumber`, the JavaScript number operations `darkenColor` uses, on naturals:
  - `parseInt(_, 16)` and `toString(16)`;
  - `>>` and `<<`;
  - `&` and `|`.
- `fish_color.dfy`: module `FishColor`, `darkenColor` and its properties.
- `aquarium.dfy`: module `Aquarium`, which holds:
  - the constants, the `Fish`, `Food` and `Bubble` records and the constructors for new objects;
  - the specification functions of the step (`ClosestAmong`, `Acquire`, `Resolve`, `Steer`, `Move`, `FishTick`, `FishPass`, `NextFood`, `Rise`) and the lemmas about them;
  - class `Tank`. It holds the fish and bubbles as arrays updated in place and the food as a sequence that is replaced each step. Its methods `Step` and `AddFood` are proved against those functions.

Modelling decisions:

- **Randomness as inputs.** Every `Math.random()` value is an input, and is required to lie in [0, 1) only where a range is proved. Every random heading `(Math.cos(a), Math.sin(a))` is an input pair.
- **Pursuit heading.** The heading `(cos(atan2(dy, dx)), sin(atan2(dy, dx)))` is a function `bearing` passed to the step. The pursuit lemma requires that `bearing` return the unit vector along its argument.
- **Positions.** Positions are `real`.
- **Distances.** Distances are compared squared (`dx*dx + dy*dy < R*R`) instead of through `Math.sqrt`. This decides the same way because the radii are positive.
- **Targets.** `targetFoodId` is an `Option`. Line 78 tests `!f.targetFoodId`, so a target id of `0` is treated like "no target" (`Aquarium.Unset`).
- **The eat radius is strict.** The eat test is `distance < FISH_EAT_RADIUS` (hooks/useAquarium.ts:100), so a pellet exactly 10 away is targeted and chased, not eaten. `Aquarium.TickAtEatRadius` states the outcome at distance 10 and `Aquarium.TickInsideEatRadius` the outcome at distance 5.
- **Food lifecycle.** Food is sunk first and filtered after (lines 128-130), so a pellet is removed in the same step whose sinking takes it to the sand line. `Aquarium.FoodLifecycle` states this over any number of steps.

## Model

| member | source | states |
|---|---|---|
| Aquarium.RandomBetween | hooks/useAquarium.ts:22 | for a draw in [0, 1) and `min < max`, the result lies in [min, max) |
| Aquarium.CreateFish | hooks/useAquarium.ts:31-48 | a new fish has the given id and no target. For valid draws: speed in [0.3, 0.9), size in [25, 50), cooldown in [0, 700), animation ticker in [0, 360), tail speed in [1.5, 2.5), colour from the palette, and a velocity of length `speed`. In a tank wider than 100 and taller than 150, x lies in [50, width − 50) and y in [50, height − 100) |
| Aquarium.CreateBubble | hooks/useAquarium.ts:50-57 | a new bubble keeps the id. For valid draws: x in [0, width), y in [height, height + 50), size in [5, 25), speed in [0.5, 2) |
| Aquarium.Tank.constructor | hooks/useAquarium.ts:60-64 | the tank starts with 15 fish made by `createFish(i)`, 25 bubbles made by `createBubble(i)` and no food |
| Aquarium.ClosestAmong | hooks/useAquarium.ts:79-88 | its own ensures give only a bound: a chosen index lies among the pellets scanned so far. What the choice means is stated by `ClosestAmongSpec` |
| Aquarium.ClosestAmongSpec | hooks/useAquarium.ts:76-88 | the scan picks nothing exactly when no uneaten pellet is strictly inside the detection radius. Otherwise it picks exactly the first pellet, in scan order, at the minimum distance |
| Aquarium.ScanForFood | hooks/useAquarium.ts:75-88 | the loop with `minDistance` and `closestFood` returns the scan's choice: none iff nothing uneaten is in range, else the first nearest uneaten pellet |
| Aquarium.Acquire | hooks/useAquarium.ts:78-92 | the target after acquisition is the old one, or, only for a fish without a target, the id of an uneaten pellet strictly inside the detection radius |
| Aquarium.AcquireSpec | hooks/useAquarium.ts:78-91 | a fish with a target keeps it without scanning. A fish without one adopts the first nearest uneaten pellet in range, or stays without a target |
| Aquarium.FindById | hooks/useAquarium.ts:94 | `food.find` by id: the first pellet with that id, or none when no pellet has it |
| Aquarium.Resolve | hooks/useAquarium.ts:94-95 | a resolved target is a present pellet whose id is the fish's target, and it is not in the eaten set. Nothing is resolved exactly when the fish has no target, or its target is in the eaten set, or no pellet has that id |
| Aquarium.Wander | hooks/useAquarium.ts:109-117 | only the velocity and the cooldown change, and the velocity only when the cooldown has run out. With a valid draw the cooldown left is positive |
| Aquarium.Steer | hooks/useAquarium.ts:94-118 | position, size, speed and identity stay. The target stays or is cleared. The eaten set stays, or gains the fish's own target, which was not in it |
| Aquarium.SteerEats | hooks/useAquarium.ts:95-102 | a resolved target inside the eat radius is added to the eaten set and the target is cleared. Velocity, cooldown and everything else stay |
| Aquarium.SteerPursues | hooks/useAquarium.ts:103-108 | outside the eat radius the velocity has length `speed * 2.5` and points at the pellet. The target, the cooldown and the eaten set stay |
| Aquarium.SteerWanders | hooks/useAquarium.ts:109-117 | without a resolved target the target is cleared and the cooldown drops by exactly 1. Only at or below 0 does the fish take the drawn heading at `speed` and a cooldown in [200, 700). Otherwise the velocity stays |
| Aquarium.Move | hooks/useAquarium.ts:120-124 | only position and velocity change. The position advances by the velocity, and each velocity component stays or is negated |
| Aquarium.MoveSpec | hooks/useAquarium.ts:120-124 | the position advances by exactly the velocity and is never clamped. Each component is negated iff the new position is outside [0, width − size] or [0, height − size − 80]. Nothing else changes |
| Aquarium.MoveBouncesBack | hooks/useAquarium.ts:120-123 | a fish carried out of the horizontal bounds has its dx flipped, and the next move returns it to its previous x |
| Aquarium.FishTick | hooks/useAquarium.ts:73-125 | the eaten set only grows. The animation ticker rises by 1, and id, speed, size, colour and tail speed stay |
| Aquarium.UpdateFish | hooks/useAquarium.ts:73-125 | the statement-by-statement update of one fish equals the specification `FishTick` |
| Aquarium.SteerFish | hooks/useAquarium.ts:94-118 | the eat, chase or wander statements equal the specification `Steer` |
| Aquarium.MoveFish | hooks/useAquarium.ts:120-124 | the move-and-reflect statements equal the specification `Move` |
| Aquarium.TickEatsAtMostOne | hooks/useAquarium.ts:80-102 | one fish leaves the eaten set unchanged or adds exactly one id. That id belongs to a present pellet and was not in the set. A fish that eats ends without a target |
| Aquarium.TickTargetStable | hooks/useAquarium.ts:78-118 | a fish entering with a target ends with that target or with none. If the target is gone or already eaten, it ends with none and wanders, without rescanning |
| Aquarium.TickEatsOnSight | hooks/useAquarium.ts:78-102 | a fish without a target whose first nearest pellet is inside the eat radius eats that pellet in the same step |
| Aquarium.TickAtEatRadius | hooks/useAquarium.ts:96-108 | fish at (100, 100), pellet at (110, 100): the pellet is targeted and not eaten |
| Aquarium.TickInsideEatRadius | hooks/useAquarium.ts:96-102 | fish at (100, 100), pellet at (105, 100): the pellet is found and eaten in the same step |
| Aquarium.TickNoFoodInRange | hooks/useAquarium.ts:76-91 | a fish without a target and with no uneaten pellet in range ends without a target and eats nothing |
| Aquarium.TickKeepsIdentity | hooks/useAquarium.ts:74 | the animation ticker rises by exactly 1. Id, speed, size, colour and tail speed never change |
| Aquarium.FishPass | hooks/useAquarium.ts:73 | the pass yields one updated fish for every fish |
| Aquarium.FishPassStep | hooks/useAquarium.ts:73 | the pass over one more fish is the pass so far plus that fish's update, with the eaten set handed on |
| Aquarium.PassEatenBound | hooks/useAquarium.ts:70-101 | over one step only ids of pellets present at its start are eaten, and no more of them than there are fish |
| Aquarium.PassKeepsOrder | hooks/useAquarium.ts:73-125 | every fish keeps its index, id, speed, size and colour, and its animation ticker rises by 1 |
| Aquarium.Sink | hooks/useAquarium.ts:129 | every pellet, in place, moves down by `FOOD_SINK_SPEED` and is otherwise unchanged |
| Aquarium.KeepSurvivors | hooks/useAquarium.ts:130 | a pellet is kept iff it is above `height − 80` and its id was not eaten. The result is never longer than the input |
| Aquarium.KeepSurvivorsCounts | hooks/useAquarium.ts:130 | a kept pellet appears exactly as often as before the filter, and a dropped one not at all |
| Aquarium.KeepSurvivorsInOrder | hooks/useAquarium.ts:130 | the filter keeps the surviving pellets in their original order |
| Aquarium.NextFood | hooks/useAquarium.ts:128-131 | the food never grows in a step, and every pellet left is above the sand line and was not eaten |
| Aquarium.NextFoodSpec | hooks/useAquarium.ts:128-131 | the new food is a subsequence of the sunk food, holding exactly the sunk pellets above the sand line whose id was not eaten, each as often as in the sunk food |
| Aquarium.FeedAboveSand | hooks/useAquarium.ts:128-131 | after one or more steps every pellet left is above the sand line |
| Aquarium.FoodPersists | hooks/useAquarium.ts:128-131 | a pellet whose id is never eaten is present after k steps, moved down by k times the sink speed, while that position is above the sand line |
| Aquarium.FoodLifecycle | hooks/useAquarium.ts:128-131 | for a pellet whose id is never eaten, after k ≥ 1 steps the pellet moved down by k is present iff that position is above the sand line. So it is removed in the very step whose sinking reaches the line |
| Aquarium.Rise | hooks/useAquarium.ts:134-139 | a bubble keeps its id, and it either keeps its column or is a fresh bubble from `createBubble` |
| Aquarium.RiseSpec | hooks/useAquarium.ts:134-139 | a bubble keeps its id. Either it rises by exactly its speed and nothing else changes, or it passed `-size` and is replaced by a fresh bubble below the tank |
| Aquarium.Tank.UpdateAllFish | hooks/useAquarium.ts:70-125 | the loop over the fish array leaves exactly the specification pass in the array and returns its eaten set |
| Aquarium.Tank.RiseAll | hooks/useAquarium.ts:134-139 | every bubble in the array is replaced by its `Rise` |
| Aquarium.Tank.Step | hooks/useAquarium.ts:68-139 | one step: the fish become the pass over the old fish and old food, and the food becomes the sunk, filtered old food. Every bubble rises or is recycled |
| Aquarium.NewFood | hooks/useAquarium.ts:155-159 | a new pellet has the given id, y = 0 and, for a valid draw, x in [0, width) |
| Aquarium.Tank.AddFood | hooks/useAquarium.ts:154-161 | the food becomes the old food with exactly one new pellet appended |
| JsNumber.ParseHex | components/Fish.tsx:6 | n hex digits read as a value below 16^n |
| JsNumber.ToHex | components/Fish.tsx:14 | at least one lowercase digit, and a leading `0` only for zero |
| JsNumber.ShiftRight | components/Fish.tsx:7-9 | `n >> k` is the floor of n / 2^k: `r·2^k ≤ n < (r + 1)·2^k` |
| JsNumber.ShiftLeft | components/Fish.tsx:13 | `n << k` has k zero low bits, and dividing it by 2^k gives n back |
| JsNumber.BitAnd | components/Fish.tsx:9-11 | `a & b` is at most either operand |
| JsNumber.BitOr | components/Fish.tsx:13 | the bitwise or of a and b is at least either operand and at most their sum |
| JsNumber.ParseToHex | components/Fish.tsx:6-14 | `parseInt(n.toString(16), 16) == n` |
| JsNumber.ParseInjective | components/Fish.tsx:14 | two lowercase digit strings of one length and one value are equal |
| JsNumber.ParseLower | components/Fish.tsx:6 | case does not change what `parseInt(_, 16)` reads |
| JsNumber.BitAndMask | components/Fish.tsx:9-11 | `a & (2^k − 1)` is `a mod 2^k` |
| JsNumber.BitOrDisjoint | components/Fish.tsx:13 | the bitwise or of `a` and `b << k` is their sum when `a` fits in k bits |
| FishColor.StripHash | components/Fish.tsx:5 | the input is the result, or `#` followed by it. A colour leaves six hex digits |
| FishColor.PadHex6 | components/Fish.tsx:14 | always six characters. Lowercase digits stay lowercase digits, and a string of at most six only gains leading zeros |
| FishColor.DarkenValue | components/Fish.tsx:6-13 | for a 24-bit colour the computed value is, as bytes, (max(0, R − a), max(0, B − a), max(0, G − a)) |
| FishColor.DarkenColor | components/Fish.tsx:4-15 | the output is always `#` followed by exactly six lowercase hex digits |
| FishColor.Hex6RoundTrip | components/Fish.tsx:14 | a 24-bit value written with `toString(16)` and zero-padded to six digits reads back as that value |
| FishColor.Extract | components/Fish.tsx:7-11 | `num >> 16`, `(num >> 8) & 0xFF` and `num & 0xFF` are the red, green and blue bytes |
| FishColor.Recompose | components/Fish.tsx:13 | or-ing `g`, `b << 8` and `r << 16` puts r in the high byte, b in the middle byte and g in the low byte |
| FishColor.UnpackPack | components/Fish.tsx:7-13 | a 24-bit value is its three bytes put back together |
| FishColor.PackUnpack | components/Fish.tsx:7-13 | three bytes put together read back channel by channel as those bytes |
| FishColor.DarkenColorValue | components/Fish.tsx:6-14 | the written digits read back as the computed value |
| FishColor.DarkenChannels | components/Fish.tsx:4-14 | output red = max(0, R − a), middle byte = max(0, B − a), low byte = max(0, G − a). None is brighter than the input channel it comes from |
| FishColor.HashOptional | components/Fish.tsx:5 | `#rrggbb` and `rrggbb` give the same output |
| FishColor.DarkenValueTwice | components/Fish.tsx:6-13 | with amount 0 the value computation undoes itself |
| FishColor.SwapInvolution | components/Fish.tsx:4-14 | with amount 0, darkening twice gives `#` plus the input digits in lowercase |
| FishColor.SwapExample | components/Fish.tsx:4-14 | `darkenColor("#f94144", 0)` is `"#f94441"`: green and blue trade places |

## Left out

- React plumbing is not modelled: state, refs, callbacks, effects and `requestAnimationFrame`/`cancelAnimationFrame` (hooks/useAquarium.ts:27-29, 141-152). `Tank.Step` is a method the environment calls once per frame, and the render copy made by `setRenderState` is not modelled.
- Resizing the tank (the effect re-running on new `width`/`height`) is modelled as constructing a new `Tank`.
- App.tsx is not part of this model. It holds the listeners, audio and layout that call `addFood` and pass dimensions in. The rendering code in the components (JSX, SVG, opacity and bobbing arithmetic) is also not part of this model.
- IEEE floating point is not modelled. Positions and speeds are exact reals, so rounding, `NaN` and infinities are absent.
- The values of `Math.random`, `Math.cos`, `Math.sin`, `Math.atan2` and `Math.sqrt` are not modelled. The first four are inputs, and square roots are replaced by squared comparisons.
- Each fish takes a turn draw every step, and uses it only when it turns. The source calls `Math.random` only for a fish that actually turns, so the sequence of random calls is not modelled.
- Fish and bubbles are records stored in arrays. The sharing of those objects with the rendered state and the identity of `Object.assign` are not modelled. The record in the array is replaced instead, which keeps the id as the source does.
- Aquarium.Tank.AddFood: the id is a parameter, because `Date.now() + Math.random()` is a clock and random call. Its freshness is not required.
- Aquarium.FindById: when two pellets share an id, `food.find` returns the first, and so does the model. Lemmas whose conclusion needs the unique pellet (`TickEatsOnSight`) ask that no earlier pellet carries the same id.
- Aquarium.CreateFish: requires its colour draw to lie in [0, 1). `Math.random` always guarantees this, and the palette index depends on it.
- Aquarium.CreateFish: the position ranges are stated only for a tank wider than 100 and taller than 150. In a smaller tank the ranges `[50, width − 50)` and `[50, height − 100)` are empty. The model then computes the same value as the source, without a bound.
- Aquarium.SteerPursues: requires that `bearing` return the unit vector along a non-zero offset, and that the fish's speed be positive. The pursuit direction is an input, and with a speed of 0 the velocity is zero and points nowhere.
- FishColor.DarkenColor: covers only inputs that are an optional `#` followed by six hex digits, with a non-negative whole `amount`. The `parseInt` results for other strings (partial parses, `NaN`) and fractional or negative amounts are left out.
- JsNumber: `>>`, `<<`, `&` and `|` are modelled on naturals, not on 32-bit signed integers. This does not change any result here, because every value `darkenColor` gives them is below 2^24.
