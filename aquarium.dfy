/**
  The aquarium simulation of hooks/useAquarium.ts: a tank of fish that wander, detect the
  nearest food pellet, chase and eat it, and bounce off the tank walls; food that sinks
  until it is eaten or reaches the sand; and a fixed pool of bubbles that rise and are
  recycled.

  Randomness is made explicit. Every `Math.random()` value is passed in as a number drawn
  from [0, 1); every random heading `(Math.cos(a), Math.sin(a))` is passed in as a pair;
  the pursuit heading `(Math.cos(atan2(dy, dx)), Math.sin(atan2(dy, dx)))` is a function
  `bearing` handed to the step. Distances are compared squared (`dx*dx + dy*dy < R*R`)
  instead of through `Math.sqrt`, which gives the same answer as the radii are positive.
 */
module Aquarium {

  import opened Wrappers

  // ---------------------------------------------------------------------------
  // Configuration (constants.ts)

  const NUM_FISH: nat := 15
  const FISH_SIZE_MIN: real := 25.0
  const FISH_SIZE_MAX: real := 50.0
  const FISH_SPEED_MIN: real := 0.3
  const FISH_SPEED_MAX: real := 0.9
  const FISH_ACCELERATION: real := 2.5
  const FOOD_SINK_SPEED: real := 1.0
  const FISH_DETECTION_RADIUS: real := 200.0
  const FISH_EAT_RADIUS: real := 10.0
  const TURN_COOLDOWN_MIN: real := 200.0
  const TURN_COOLDOWN_MAX: real := 700.0
  const NUM_BUBBLES: nat := 25
  const BUBBLE_SPEED_MIN: real := 0.5
  const BUBBLE_SPEED_MAX: real := 2.0
  const BUBBLE_SIZE_MIN: real := 5.0
  const BUBBLE_SIZE_MAX: real := 25.0

  /** Height of the strip of sand at the bottom of the tank (the literal 80 of the loop). */
  const SAND_HEIGHT: real := 80.0

  const FISH_COLORS: seq<string> :=
    ["#ff6b6b", "#f94144", "#f3722c", "#f8961e", "#f9c74f", "#90be6d", "#43aa8b", "#577590"]

  // ---------------------------------------------------------------------------
  // Entities (types.ts)

  /** Food ids are numbers made from the clock and a random fraction. */
  type FoodId = real

  datatype Fish = Fish(
    id: int,
    x: real, y: real,
    dx: real, dy: real,
    color: string,
    size: real,
    targetFoodId: Option<FoodId>,
    turnCooldown: real,
    speed: real,
    animationTicker: real,
    tailAnimationSpeed: real)

  datatype Food = Food(id: FoodId, x: real, y: real)

  datatype Bubble = Bubble(id: int, x: real, y: real, size: real, speed: real)

  // ---------------------------------------------------------------------------
  // Random draws

  /** A value `Math.random()` can return. */
  predicate IsRandomDraw(u: real) {
    0.0 <= u < 1.0
  }

  /** `randomBetween(min, max)` for the draw `u` of `Math.random()`. */
  function RandomBetween(u: real, min: real, max: real): (r: real)
    ensures IsRandomDraw(u) && min < max ==> min <= r < max
  {
    var w := max - min;
    ScaleDraw(u, w);
    assert IsRandomDraw(u) && min < max ==> 0.0 <= u * w < w;
    u * w + min
  }

  lemma ScaleDraw(u: real, w: real)
    ensures IsRandomDraw(u) && w > 0.0 ==> 0.0 <= u * w < w
  {
    if IsRandomDraw(u) && w > 0.0 {
      assert (1.0 - u) * w > 0.0;
    }
  }

  /** `(Math.cos(a), Math.sin(a))` of some angle `a`: a unit vector. */
  predicate IsHeading(cos: real, sin: real) {
    cos * cos + sin * sin == 1.0
  }

  /**
    What a wandering turn of one fish draws: the heading of the new random angle and the
    `Math.random()` value behind the new cooldown. A step takes one per fish and uses it
    only if that fish turns.
   */
  datatype TurnDraw = TurnDraw(cos: real, sin: real, cooldown: real)

  predicate IsTurnDraw(t: TurnDraw) {
    IsHeading(t.cos, t.sin) && IsRandomDraw(t.cooldown)
  }

  /** The four `Math.random()` values behind one new bubble. */
  datatype BubbleDraw = BubbleDraw(x: real, y: real, size: real, speed: real)

  predicate IsBubbleDraw(d: BubbleDraw) {
    IsRandomDraw(d.x) && IsRandomDraw(d.y) && IsRandomDraw(d.size) && IsRandomDraw(d.speed)
  }

  /** The heading of the initial random angle and the `Math.random()` values behind one new fish. */
  datatype FishDraw = FishDraw(
    cos: real, sin: real,
    speed: real, x: real, y: real, color: real, size: real,
    cooldown: real, ticker: real, tail: real)

  predicate IsFishDraw(d: FishDraw) {
    && IsHeading(d.cos, d.sin)
    && IsRandomDraw(d.speed) && IsRandomDraw(d.x) && IsRandomDraw(d.y) && IsRandomDraw(d.color)
    && IsRandomDraw(d.size) && IsRandomDraw(d.cooldown) && IsRandomDraw(d.ticker)
    && IsRandomDraw(d.tail)
  }

  /**
    The pursuit heading: what `(Math.cos(Math.atan2(dy, dx)), Math.sin(Math.atan2(dy, dx)))`
    is for every non-zero offset — the unit vector pointing along `(dx, dy)`.
   */
  predicate PointsAlong(h: (real, real), dx: real, dy: real) {
    && h.0 * h.0 + h.1 * h.1 == 1.0
    && h.0 * dy == h.1 * dx
    && h.0 * dx + h.1 * dy > 0.0
  }

  ghost predicate IsBearing(bearing: (real, real) -> (real, real)) {
    forall dx: real, dy: real :: dx * dx + dy * dy > 0.0 ==> PointsAlong(bearing(dx, dy), dx, dy)
  }

  // ---------------------------------------------------------------------------
  // Construction (createFish, createBubble, addFood)

  /** `createFish(id)` in a tank of the given size. */
  function CreateFish(id: int, d: FishDraw, width: real, height: real): (f: Fish)
    requires IsRandomDraw(d.color)
    ensures f.id == id && f.targetFoodId == None && f.speed == RandomBetween(d.speed, FISH_SPEED_MIN, FISH_SPEED_MAX)
    ensures IsFishDraw(d) ==>
      && FISH_SPEED_MIN <= f.speed < FISH_SPEED_MAX
      && FISH_SIZE_MIN <= f.size < FISH_SIZE_MAX
      && 0.0 <= f.turnCooldown < TURN_COOLDOWN_MAX
      && f.dx * f.dx + f.dy * f.dy == f.speed * f.speed
      && f.color in FISH_COLORS
      && 0.0 <= f.animationTicker < 360.0
      && 1.5 <= f.tailAnimationSpeed < 2.5
    ensures IsFishDraw(d) && width > 100.0 && height > 150.0 ==>
      50.0 <= f.x < width - 50.0 && 50.0 <= f.y < height - 100.0
  {
    var speed := RandomBetween(d.speed, FISH_SPEED_MIN, FISH_SPEED_MAX);
    var colorIndex := (d.color * |FISH_COLORS| as real).Floor;
    assert (d.cos * speed) * (d.cos * speed) + (d.sin * speed) * (d.sin * speed)
        == (d.cos * d.cos + d.sin * d.sin) * (speed * speed);
    Fish(
      id,
      RandomBetween(d.x, 50.0, width - 50.0),
      RandomBetween(d.y, 50.0, height - 100.0),
      d.cos * speed,
      d.sin * speed,
      FISH_COLORS[colorIndex],
      RandomBetween(d.size, FISH_SIZE_MIN, FISH_SIZE_MAX),
      None,
      RandomBetween(d.cooldown, 0.0, TURN_COOLDOWN_MAX),
      speed,
      RandomBetween(d.ticker, 0.0, 360.0),
      RandomBetween(d.tail, 1.5, 2.5))
  }

  /** `createBubble(id)`: a fresh bubble just below the bottom of the tank. */
  function CreateBubble(id: int, d: BubbleDraw, width: real, height: real): (b: Bubble)
    ensures b.id == id
    ensures IsBubbleDraw(d) && width > 0.0 ==>
      && 0.0 <= b.x < width
      && height <= b.y < height + 50.0
      && BUBBLE_SIZE_MIN <= b.size < BUBBLE_SIZE_MAX
      && BUBBLE_SPEED_MIN <= b.speed < BUBBLE_SPEED_MAX
  {
    Bubble(
      id,
      RandomBetween(d.x, 0.0, width),
      height + RandomBetween(d.y, 0.0, 50.0),
      RandomBetween(d.size, BUBBLE_SIZE_MIN, BUBBLE_SIZE_MAX),
      RandomBetween(d.speed, BUBBLE_SPEED_MIN, BUBBLE_SPEED_MAX))
  }

  /** The pellet `addFood` creates: at the top of the tank, at a random column. */
  function NewFood(id: FoodId, u: real, width: real): (p: Food)
    ensures p.id == id && p.y == 0.0
    ensures IsRandomDraw(u) && width > 0.0 ==> 0.0 <= p.x < width
  {
    Food(id, RandomBetween(u, 0.0, width), 0.0)
  }

  // ---------------------------------------------------------------------------
  // Target acquisition (lines 75-92)

  /** Squared distance from `(x, y)` to a pellet. */
  function Dist2(x: real, y: real, p: Food): real {
    Norm2(p.x - x, p.y - y)
  }

  /** The squared length of an offset. */
  function Norm2(dx: real, dy: real): real {
    dx * dx + dy * dy
  }

  /**
    `!f.targetFoodId`: the fish has no target. A target id of 0 is falsy in JavaScript
    and so counts as no target as well.
   */
  predicate Unset(target: Option<FoodId>) {
    target.None? || target.value == 0.0
  }

  /** `minDistance` (squared) for the pellet chosen so far, or the detection radius. */
  function MinDistance(food: seq<Food>, x: real, y: real, c: Option<nat>): real
    requires c.Some? ==> c.value < |food|
  {
    if c.None? then FISH_DETECTION_RADIUS * FISH_DETECTION_RADIUS else Dist2(x, y, food[c.value])
  }

  /** The pellet (by index) the scan has chosen after looking at the first `n` pellets. */
  function ClosestAmong(food: seq<Food>, eaten: set<FoodId>, x: real, y: real, n: nat): (c: Option<nat>)
    requires n <= |food|
    ensures c.Some? ==> c.value < n
  {
    if n == 0 then None
    else
      var c := ClosestAmong(food, eaten, x, y, n - 1);
      var p := food[n - 1];
      if p.id in eaten then c
      else if Dist2(x, y, p) < MinDistance(food, x, y, c) then Some(n - 1)
      else c
  }

  /** No uneaten pellet among the first `n` lies strictly inside the detection radius. */
  predicate NoneInRange(food: seq<Food>, eaten: set<FoodId>, x: real, y: real, n: nat)
    requires n <= |food|
  {
    forall j :: 0 <= j < n && food[j].id !in eaten ==>
      Dist2(x, y, food[j]) >= FISH_DETECTION_RADIUS * FISH_DETECTION_RADIUS
  }

  /**
    Pellet `i` is uneaten, strictly inside the detection radius, at least as close as every
    uneaten pellet among the first `n`, and strictly closer than every uneaten one before it.
   */
  predicate FirstNearest(food: seq<Food>, eaten: set<FoodId>, x: real, y: real, n: nat, i: nat)
    requires n <= |food|
  {
    && i < n
    && food[i].id !in eaten
    && Dist2(x, y, food[i]) < FISH_DETECTION_RADIUS * FISH_DETECTION_RADIUS
    && (forall j :: 0 <= j < n && food[j].id !in eaten ==> Dist2(x, y, food[i]) <= Dist2(x, y, food[j]))
    && (forall j :: 0 <= j < i && food[j].id !in eaten ==> Dist2(x, y, food[i]) < Dist2(x, y, food[j]))
  }

  lemma FirstNearestUnique(food: seq<Food>, eaten: set<FoodId>, x: real, y: real, n: nat, i: nat, k: nat)
    requires n <= |food|
    requires FirstNearest(food, eaten, x, y, n, i) && FirstNearest(food, eaten, x, y, n, k)
    ensures i == k
  {
  }

  /**
    The scan picks nothing exactly when no uneaten pellet is in range, and otherwise picks
    the first pellet in scan order at the minimum distance.
   */
  lemma {:induction false} ClosestAmongSpec(food: seq<Food>, eaten: set<FoodId>, x: real, y: real, n: nat)
    requires n <= |food|
    ensures ClosestAmong(food, eaten, x, y, n).None? <==> NoneInRange(food, eaten, x, y, n)
    ensures forall i: nat :: FirstNearest(food, eaten, x, y, n, i) <==> ClosestAmong(food, eaten, x, y, n) == Some(i)
  {
    var c := ClosestAmong(food, eaten, x, y, n);
    if n > 0 {
      ClosestAmongSpec(food, eaten, x, y, n - 1);
      var prev := ClosestAmong(food, eaten, x, y, n - 1);
      var p := food[n - 1];
      if p.id in eaten {
        assert c == prev;
        forall i: nat ensures FirstNearest(food, eaten, x, y, n, i) <==> FirstNearest(food, eaten, x, y, n - 1, i) {
        }
      } else if Dist2(x, y, p) < MinDistance(food, x, y, prev) {
        assert FirstNearest(food, eaten, x, y, n, n - 1);
        forall i: nat | FirstNearest(food, eaten, x, y, n, i) ensures i == n - 1 {
          FirstNearestUnique(food, eaten, x, y, n, i, n - 1);
        }
      } else if prev.None? {
        assert NoneInRange(food, eaten, x, y, n);
      } else {
        var i := prev.value;
        assert FirstNearest(food, eaten, x, y, n - 1, i);
        assert FirstNearest(food, eaten, x, y, n, i);
        forall k: nat | FirstNearest(food, eaten, x, y, n, k) ensures k == i {
          FirstNearestUnique(food, eaten, x, y, n, k, i);
        }
      }
    }
    if c.Some? {
      assert !NoneInRange(food, eaten, x, y, n) by {
        assert FirstNearest(food, eaten, x, y, n, c.value);
      }
    }
  }

  /**
    The food scan of lines 79-88: looks at every pellet not eaten this tick, in array order,
    and keeps the first one strictly closer than the best so far, starting from the
    detection radius.
   */
  method ScanForFood(food: seq<Food>, eaten: set<FoodId>, x: real, y: real) returns (closest: Option<nat>)
    ensures closest == ClosestAmong(food, eaten, x, y, |food|)
    ensures closest.None? <==> NoneInRange(food, eaten, x, y, |food|)
    ensures closest.Some? ==> FirstNearest(food, eaten, x, y, |food|, closest.value)
  {
    closest := None;
    var minDistance := FISH_DETECTION_RADIUS * FISH_DETECTION_RADIUS;
    for i := 0 to |food|
      invariant closest == ClosestAmong(food, eaten, x, y, i)
      invariant minDistance == MinDistance(food, x, y, closest)
    {
      var p := food[i];
      if p.id in eaten {
        continue;
      }
      var distance := Dist2(x, y, p);
      if distance < minDistance {
        minDistance := distance;
        closest := Some(i);
      }
    }
    ClosestAmongSpec(food, eaten, x, y, |food|);
  }

  /**
    The target a fish holds after lines 75-92: the one it had, or, for a fish without a
    target, the id of an uneaten pellet strictly inside the detection radius.
   */
  function Acquire(f: Fish, food: seq<Food>, eaten: set<FoodId>): (r: Option<FoodId>)
    ensures r != f.targetFoodId ==> Unset(f.targetFoodId) && exists i ::
      && 0 <= i < |food| && food[i].id !in eaten
      && Dist2(f.x, f.y, food[i]) < FISH_DETECTION_RADIUS * FISH_DETECTION_RADIUS
      && r == Some(food[i].id)
  {
    ClosestAmongSpec(food, eaten, f.x, f.y, |food|);
    if Unset(f.targetFoodId) then
      match ClosestAmong(food, eaten, f.x, f.y, |food|)
      case Some(i) => Some(food[i].id)
      case None => f.targetFoodId
    else f.targetFoodId
  }

  /**
    Acquisition runs only for a fish without a target. It adopts the id of the first
    nearest uneaten pellet in range; with none in range the target stays as it was.
   */
  lemma AcquireSpec(f: Fish, food: seq<Food>, eaten: set<FoodId>)
    ensures !Unset(f.targetFoodId) ==> Acquire(f, food, eaten) == f.targetFoodId
    ensures Unset(f.targetFoodId) && NoneInRange(food, eaten, f.x, f.y, |food|) ==>
      Acquire(f, food, eaten) == f.targetFoodId
    ensures Unset(f.targetFoodId) && !NoneInRange(food, eaten, f.x, f.y, |food|) ==>
      exists i: nat :: FirstNearest(food, eaten, f.x, f.y, |food|, i) && Acquire(f, food, eaten) == Some(food[i].id)
  {
    ClosestAmongSpec(food, eaten, f.x, f.y, |food|);
    var c := ClosestAmong(food, eaten, f.x, f.y, |food|);
    if c.Some? {
      assert FirstNearest(food, eaten, f.x, f.y, |food|, c.value);
    }
  }

  // ---------------------------------------------------------------------------
  // Resolving, eating, pursuing, wandering (lines 94-118)

  /** The first pellet, in array order, whose id is the target's; none without a target. */
  function FindById(food: seq<Food>, target: Option<FoodId>): (k: Option<nat>)
    ensures k.Some? ==>
      && target.Some? && k.value < |food| && food[k.value].id == target.value
      && forall j :: 0 <= j < k.value ==> food[j].id != target.value
    ensures k.None? ==> target.None? || forall j :: 0 <= j < |food| ==> food[j].id != target.value
  {
    if target.None? then None else FindFrom(food, target.value, 0)
  }

  function FindFrom(food: seq<Food>, id: FoodId, start: nat): (k: Option<nat>)
    requires start <= |food|
    ensures k.Some? ==>
      && start <= k.value < |food| && food[k.value].id == id
      && forall j :: start <= j < k.value ==> food[j].id != id
    ensures k.None? ==> forall j :: start <= j < |food| ==> food[j].id != id
    decreases |food| - start
  {
    if start == |food| then None
    else if food[start].id == id then Some(start)
    else FindFrom(food, id, start + 1)
  }

  /** The pellet the fish's target resolves to, if it is present and not eaten this tick. */
  function Resolve(f: Fish, food: seq<Food>, eaten: set<FoodId>): (k: Option<nat>)
    ensures k.Some? ==> k.value < |food| && f.targetFoodId == Some(food[k.value].id)
    ensures k.Some? ==> food[k.value].id !in eaten
    ensures k.None? <==>
      || f.targetFoodId.None?
      || f.targetFoodId.value in eaten
      || forall j :: 0 <= j < |food| ==> food[j].id != f.targetFoodId.value
  {
    var k := FindById(food, f.targetFoodId);
    if k.Some? && food[k.value].id !in eaten then k else None
  }

  /** A fish with its food-eaten set, after its update. */
  datatype TickResult = TickResult(fish: Fish, eaten: set<FoodId>)

  /**
    Lines 109-117, with the target already cleared: count down, and turn at zero. Only the
    velocity and the cooldown change, the velocity only on a turn, and with a valid draw the
    cooldown left is positive.
   */
  function Wander(f: Fish, turn: TurnDraw): (g: Fish)
    ensures g == f.(dx := g.dx, dy := g.dy, turnCooldown := g.turnCooldown)
    ensures f.turnCooldown - 1.0 > 0.0 ==> g.dx == f.dx && g.dy == f.dy
    ensures IsTurnDraw(turn) ==> g.turnCooldown > 0.0
  {
    var cooldown := f.turnCooldown - 1.0;
    if cooldown <= 0.0 then
      f.(dx := turn.cos * f.speed, dy := turn.sin * f.speed,
         turnCooldown := RandomBetween(turn.cooldown, TURN_COOLDOWN_MIN, TURN_COOLDOWN_MAX))
    else f.(turnCooldown := cooldown)
  }

  /**
    Lines 94-118: eat the resolved target, chase it, or wander. Position, size and speed
    stay; the target stays or is cleared; the eaten set stays or gains the fish's own
    target, which was not in it.
   */
  function Steer(f: Fish, food: seq<Food>, eaten: set<FoodId>, turn: TurnDraw,
                 bearing: (real, real) -> (real, real)): (r: TickResult)
    ensures r.fish == f.(targetFoodId := r.fish.targetFoodId, dx := r.fish.dx, dy := r.fish.dy,
                         turnCooldown := r.fish.turnCooldown)
    ensures r.fish.targetFoodId == f.targetFoodId || r.fish.targetFoodId == None
    ensures r.eaten == eaten ||
      (f.targetFoodId.Some? && f.targetFoodId.value !in eaten && r.eaten == eaten + {f.targetFoodId.value})
  {
    var k := Resolve(f, food, eaten);
    if k.Some? then
      var p := food[k.value];
      var dx, dy := p.x - f.x, p.y - f.y;
      if Norm2(dx, dy) < FISH_EAT_RADIUS * FISH_EAT_RADIUS then
        TickResult(f.(targetFoodId := None), eaten + {p.id})
      else
        var heading := bearing(dx, dy);
        var effectiveSpeed := f.speed * FISH_ACCELERATION;
        TickResult(f.(dx := heading.0 * effectiveSpeed, dy := heading.1 * effectiveSpeed), eaten)
    else
      TickResult(Wander(f.(targetFoodId := None), turn), eaten)
  }

  /**
    Eating: a resolved target within the eat radius is added to the eaten set and the target
    is cleared; nothing else about the fish changes (velocity and cooldown stay).
   */
  lemma SteerEats(f: Fish, food: seq<Food>, eaten: set<FoodId>, turn: TurnDraw,
                  bearing: (real, real) -> (real, real))
    requires Resolve(f, food, eaten).Some?
    requires Dist2(f.x, f.y, food[Resolve(f, food, eaten).value]) < FISH_EAT_RADIUS * FISH_EAT_RADIUS
    ensures var r := Steer(f, food, eaten, turn, bearing);
      && f.targetFoodId.Some? && f.targetFoodId.value !in eaten
      && r.eaten == eaten + {f.targetFoodId.value}
      && r.fish == f.(targetFoodId := None)
  {
  }

  /**
    Pursuit: a resolved target outside the eat radius sets the velocity along the offset to
    the pellet, with magnitude `speed * FISH_ACCELERATION`; the target, the cooldown and the
    eaten set stay.
   */
  lemma SteerPursues(f: Fish, food: seq<Food>, eaten: set<FoodId>, turn: TurnDraw,
                     bearing: (real, real) -> (real, real))
    requires IsBearing(bearing) && f.speed > 0.0
    requires Resolve(f, food, eaten).Some?
    requires Dist2(f.x, f.y, food[Resolve(f, food, eaten).value]) >= FISH_EAT_RADIUS * FISH_EAT_RADIUS
    ensures var r := Steer(f, food, eaten, turn, bearing);
      var p := food[Resolve(f, food, eaten).value];
      var g := r.fish;
      && r.eaten == eaten
      && g == f.(dx := g.dx, dy := g.dy)
      && g.dx * g.dx + g.dy * g.dy == (f.speed * FISH_ACCELERATION) * (f.speed * FISH_ACCELERATION)
      && g.dx * (p.y - f.y) == g.dy * (p.x - f.x)
      && g.dx * (p.x - f.x) + g.dy * (p.y - f.y) > 0.0
  {
    var p := food[Resolve(f, food, eaten).value];
    var dx, dy := p.x - f.x, p.y - f.y;
    var h := bearing(dx, dy);
    var e := f.speed * FISH_ACCELERATION;
    assert PointsAlong(h, dx, dy);
    assert (h.0 * e) * (h.0 * e) + (h.1 * e) * (h.1 * e) == (h.0 * h.0 + h.1 * h.1) * (e * e);
    assert (h.0 * e) * dy == e * (h.0 * dy) && (h.1 * e) * dx == e * (h.1 * dx);
    assert (h.0 * e) * dx + (h.1 * e) * dy == e * (h.0 * dx + h.1 * dy);
  }

  /**
    Wandering: with no resolved target the target is cleared and the cooldown drops by one;
    only when it reaches zero or below does the fish take the drawn heading at cruising
    speed and a new cooldown in [TURN_COOLDOWN_MIN, TURN_COOLDOWN_MAX). Otherwise the
    velocity stays.
   */
  lemma SteerWanders(f: Fish, food: seq<Food>, eaten: set<FoodId>, turn: TurnDraw,
                     bearing: (real, real) -> (real, real))
    requires Resolve(f, food, eaten).None?
    ensures var r := Steer(f, food, eaten, turn, bearing);
      var g := r.fish;
      && r.eaten == eaten
      && g.targetFoodId == None
      && (f.turnCooldown - 1.0 > 0.0 ==> g == f.(targetFoodId := None, turnCooldown := f.turnCooldown - 1.0))
      && (f.turnCooldown - 1.0 <= 0.0 ==>
            && g == f.(targetFoodId := None, dx := g.dx, dy := g.dy, turnCooldown := g.turnCooldown)
            && g.dx == turn.cos * f.speed && g.dy == turn.sin * f.speed
            && (IsTurnDraw(turn) ==>
                  && TURN_COOLDOWN_MIN <= g.turnCooldown < TURN_COOLDOWN_MAX
                  && g.dx * g.dx + g.dy * g.dy == f.speed * f.speed))
  {
    var s := f.speed;
    assert (turn.cos * s) * (turn.cos * s) + (turn.sin * s) * (turn.sin * s)
        == (turn.cos * turn.cos + turn.sin * turn.sin) * (s * s);
  }

  // ---------------------------------------------------------------------------
  // Integration and reflection (lines 120-124)

  /**
    Lines 120-124: move by the velocity, then flip each component that left the bounds.
    Only the position and the velocity change, and each velocity component keeps its size.
   */
  function Move(f: Fish, width: real, height: real): (g: Fish)
    ensures g == f.(x := g.x, y := g.y, dx := g.dx, dy := g.dy)
    ensures g.x == f.x + f.dx && g.y == f.y + f.dy
    ensures (g.dx == f.dx || g.dx == -f.dx) && (g.dy == f.dy || g.dy == -f.dy)
  {
    var x := f.x + f.dx;
    var y := f.y + f.dy;
    var dx := if x < 0.0 || x > width - f.size then -f.dx else f.dx;
    var dy := if y < 0.0 || y > height - f.size - SAND_HEIGHT then -f.dy else f.dy;
    f.(x := x, y := y, dx := dx, dy := dy)
  }

  /**
    A component is negated exactly when the new position is outside the bounds on that axis
    (`[0, width - size]` across, `[0, height - size - 80]` down); the position itself is
    never clamped; nothing else changes.
   */
  lemma MoveSpec(f: Fish, width: real, height: real)
    ensures var g := Move(f, width, height);
      && g.x == f.x + f.dx && g.y == f.y + f.dy
      && (0.0 <= g.x <= width - f.size ==> g.dx == f.dx)
      && (!(0.0 <= g.x <= width - f.size) ==> g.dx == -f.dx)
      && (0.0 <= g.y <= height - f.size - SAND_HEIGHT ==> g.dy == f.dy)
      && (!(0.0 <= g.y <= height - f.size - SAND_HEIGHT) ==> g.dy == -f.dy)
      && g == f.(x := g.x, y := g.y, dx := g.dx, dy := g.dy)
  {
  }

  /**
    A fish inside the horizontal bounds that one move carries outside is brought back: the
    next move, with the flipped velocity, returns it to where it started.
   */
  lemma MoveBouncesBack(f: Fish, width: real, height: real)
    requires 0.0 <= f.x <= width - f.size
    requires f.x + f.dx < 0.0 || f.x + f.dx > width - f.size
    ensures var g := Move(f, width, height);
      g.dx == -f.dx && Move(g, width, height).x == f.x && Move(g, width, height).dx == g.dx
  {
  }

  // ---------------------------------------------------------------------------
  // One fish, one tick (lines 73-125)

  /**
    The whole update of one fish in the `forEach` of line 73: the ticker counts up, the
    eaten set only grows, and the fish keeps its identity.
   */
  function FishTick(f: Fish, food: seq<Food>, eaten: set<FoodId>, turn: TurnDraw,
                    bearing: (real, real) -> (real, real), width: real, height: real): (r: TickResult)
    ensures eaten <= r.eaten
    ensures r.fish.animationTicker == f.animationTicker + 1.0
    ensures r.fish.id == f.id && r.fish.speed == f.speed && r.fish.size == f.size
    ensures r.fish.color == f.color && r.fish.tailAnimationSpeed == f.tailAnimationSpeed
  {
    var ticked := f.(animationTicker := f.animationTicker + 1.0);
    var aimed := ticked.(targetFoodId := Acquire(ticked, food, eaten));
    var steered := Steer(aimed, food, eaten, turn, bearing);
    TickResult(Move(steered.fish, width, height), steered.eaten)
  }

  /** The callback of line 73, step by step: the model of what the loop body does. */
  method UpdateFish(f: Fish, food: seq<Food>, eaten: set<FoodId>, turn: TurnDraw,
                    bearing: (real, real) -> (real, real), width: real, height: real)
    returns (r: TickResult)
    ensures r == FishTick(f, food, eaten, turn, bearing, width, height)
  {
    var g := f.(animationTicker := f.animationTicker + 1.0);
    ghost var ticked := g;
    if Unset(g.targetFoodId) {
      var closestFood := ScanForFood(food, eaten, g.x, g.y);
      if closestFood.Some? {
        g := g.(targetFoodId := Some(food[closestFood.value].id));
      }
    }
    assert g == ticked.(targetFoodId := Acquire(ticked, food, eaten));
    var steered := SteerFish(g, food, eaten, turn, bearing);
    var moved := MoveFish(steered.fish, width, height);
    r := TickResult(moved, steered.eaten);
  }

  /** Lines 94-118 of the callback, statement by statement. */
  method SteerFish(f: Fish, food: seq<Food>, eaten: set<FoodId>, turn: TurnDraw,
                   bearing: (real, real) -> (real, real))
    returns (r: TickResult)
    ensures r == Steer(f, food, eaten, turn, bearing)
  {
    var g := f;
    var ate := eaten;
    var targetFood := FindById(food, g.targetFoodId);
    if targetFood.Some? && food[targetFood.value].id !in eaten {
      var p := food[targetFood.value];
      var dx, dy := p.x - g.x, p.y - g.y;
      if Norm2(dx, dy) < FISH_EAT_RADIUS * FISH_EAT_RADIUS {
        ate := eaten + {p.id};
        g := g.(targetFoodId := None);
      } else {
        var (cos, sin) := bearing(dx, dy);
        var effectiveSpeed := g.speed * FISH_ACCELERATION;
        g := g.(dx := cos * effectiveSpeed, dy := sin * effectiveSpeed);
      }
    } else {
      g := g.(targetFoodId := None);
      g := g.(turnCooldown := g.turnCooldown - 1.0);
      if g.turnCooldown <= 0.0 {
        g := g.(dx := turn.cos * g.speed, dy := turn.sin * g.speed,
                turnCooldown := RandomBetween(turn.cooldown, TURN_COOLDOWN_MIN, TURN_COOLDOWN_MAX));
      }
    }
    r := TickResult(g, ate);
  }

  /** Lines 120-124 of the callback, statement by statement. */
  method MoveFish(f: Fish, width: real, height: real) returns (g: Fish)
    ensures g == Move(f, width, height)
  {
    g := f.(x := f.x + f.dx, y := f.y + f.dy);
    if g.x < 0.0 || g.x > width - g.size {
      g := g.(dx := -g.dx);
    }
    if g.y < 0.0 || g.y > height - g.size - SAND_HEIGHT {
      g := g.(dy := -g.dy);
    }
  }

  /** The ids of the pellets present. */
  function FoodIds(food: seq<Food>): set<FoodId> {
    set p | p in food :: p.id
  }

  /**
    Each fish adds at most one id to the eaten set, never one already there, and only the id
    of a pellet present in the food array; a fish that eats ends the tick without a target.
   */
  lemma TickEatsAtMostOne(f: Fish, food: seq<Food>, eaten: set<FoodId>, turn: TurnDraw,
                          bearing: (real, real) -> (real, real), width: real, height: real)
    ensures var r := FishTick(f, food, eaten, turn, bearing, width, height);
      && (r.eaten == eaten || exists id :: id in FoodIds(food) && id !in eaten && r.eaten == eaten + {id})
      && eaten <= r.eaten
      && r.eaten - eaten <= FoodIds(food)
      && |r.eaten| <= |eaten| + 1
      && (r.eaten != eaten ==> r.fish.targetFoodId == None)
  {
    var ticked := f.(animationTicker := f.animationTicker + 1.0);
    var aimed := ticked.(targetFoodId := Acquire(ticked, food, eaten));
    var k := Resolve(aimed, food, eaten);
    if k.Some? {
      var p := food[k.value];
      assert p in food;
      assert p.id in FoodIds(food) && p.id !in eaten;
      assert |eaten + {p.id}| == |eaten| + 1;
    }
  }

  /**
    A fish that enters the tick with a target never switches to another pellet during it:
    it keeps that target or ends with none. If the target is gone or already eaten this
    tick, it ends with none, without scanning again, and wanders.
   */
  lemma TickTargetStable(f: Fish, food: seq<Food>, eaten: set<FoodId>, turn: TurnDraw,
                         bearing: (real, real) -> (real, real), width: real, height: real)
    requires !Unset(f.targetFoodId)
    ensures var r := FishTick(f, food, eaten, turn, bearing, width, height);
      r.fish.targetFoodId == f.targetFoodId || r.fish.targetFoodId == None
    ensures Resolve(f, food, eaten).None? ==>
      var r := FishTick(f, food, eaten, turn, bearing, width, height);
      && r.fish.targetFoodId == None
      && r.eaten == eaten
      && r.fish == Move(Wander(f.(animationTicker := f.animationTicker + 1.0, targetFoodId := None), turn), width, height)
  {
  }

  /**
    A fish with no target reaching an uneaten pellet that is nearest and within the eat
    radius eats it in the same tick it detects it (when that pellet's id is not shared by an
    earlier pellet).
   */
  lemma TickEatsOnSight(f: Fish, food: seq<Food>, eaten: set<FoodId>, turn: TurnDraw,
                        bearing: (real, real) -> (real, real), width: real, height: real, i: nat)
    requires i < |food| && Unset(f.targetFoodId)
    requires FirstNearest(food, eaten, f.x, f.y, |food|, i)
    requires forall j :: 0 <= j < i ==> food[j].id != food[i].id
    requires Dist2(f.x, f.y, food[i]) < FISH_EAT_RADIUS * FISH_EAT_RADIUS
    ensures var r := FishTick(f, food, eaten, turn, bearing, width, height);
      r.eaten == eaten + {food[i].id} && r.fish.targetFoodId == None
  {
    ClosestAmongSpec(food, eaten, f.x, f.y, |food|);
    var ticked := f.(animationTicker := f.animationTicker + 1.0);
    assert Acquire(ticked, food, eaten) == Some(food[i].id);
    assert FindById(food, Some(food[i].id)) == Some(i);
  }

  /**
    A pellet exactly at the eat radius is not eaten: a fish at (100, 100) without a target and
    a single pellet at (110, 100) end the tick with the pellet targeted and not eaten.
   */
  lemma TickAtEatRadius(f: Fish, id: FoodId, turn: TurnDraw,
                        bearing: (real, real) -> (real, real), width: real, height: real)
    requires f.x == 100.0 && f.y == 100.0 && f.targetFoodId == None
    ensures var r := FishTick(f, [Food(id, 110.0, 100.0)], {}, turn, bearing, width, height);
      r.eaten == {} && r.fish.targetFoodId == Some(id)
  {
    var food := [Food(id, 110.0, 100.0)];
    assert Dist2(f.x, f.y, food[0]) == 100.0;
    assert ClosestAmong(food, {}, f.x, f.y, 1) == Some(0);
  }

  /** A pellet half the eat radius away is found and eaten in the same tick. */
  lemma TickInsideEatRadius(f: Fish, id: FoodId, turn: TurnDraw,
                            bearing: (real, real) -> (real, real), width: real, height: real)
    requires f.x == 100.0 && f.y == 100.0 && f.targetFoodId == None
    ensures var r := FishTick(f, [Food(id, 105.0, 100.0)], {}, turn, bearing, width, height);
      r.eaten == {id} && r.fish.targetFoodId == None
  {
    var food := [Food(id, 105.0, 100.0)];
    assert Dist2(f.x, f.y, food[0]) == 25.0;
    assert ClosestAmong(food, {}, f.x, f.y, 1) == Some(0);
  }

  /** A fish without a target and with no uneaten food in the detection radius stays without one. */
  lemma TickNoFoodInRange(f: Fish, food: seq<Food>, eaten: set<FoodId>, turn: TurnDraw,
                          bearing: (real, real) -> (real, real), width: real, height: real)
    requires f.targetFoodId == None
    requires NoneInRange(food, eaten, f.x, f.y, |food|)
    ensures var r := FishTick(f, food, eaten, turn, bearing, width, height);
      r.fish.targetFoodId == None && r.eaten == eaten
  {
    ClosestAmongSpec(food, eaten, f.x, f.y, |food|);
  }

  /**
    The update counts the animation ticker up by one and never changes a fish's identity,
    cruising speed, size, colour or tail speed.
   */
  lemma TickKeepsIdentity(f: Fish, food: seq<Food>, eaten: set<FoodId>, turn: TurnDraw,
                          bearing: (real, real) -> (real, real), width: real, height: real)
    ensures var g := FishTick(f, food, eaten, turn, bearing, width, height).fish;
      && g.animationTicker == f.animationTicker + 1.0
      && g.id == f.id && g.speed == f.speed && g.size == f.size && g.color == f.color
      && g.tailAnimationSpeed == f.tailAnimationSpeed
  {
  }

  // ---------------------------------------------------------------------------
  // All fish in order (lines 70-125)

  datatype PassResult = PassResult(fish: seq<Fish>, eaten: set<FoodId>)

  /**
    The `forEach` of line 73 over the first `|fish|` fish, in array order, threading the
    per-tick eaten set (created empty on line 70) from each fish to the next.
   */
  function FishPass(fish: seq<Fish>, food: seq<Food>, turns: seq<TurnDraw>,
                    bearing: (real, real) -> (real, real), width: real, height: real): (r: PassResult)
    requires |fish| <= |turns|
    ensures |r.fish| == |fish|
    decreases |fish|
  {
    if fish == [] then PassResult([], {})
    else
      var n := |fish| - 1;
      var prev := FishPass(fish[..n], food, turns, bearing, width, height);
      var t := FishTick(fish[n], food, prev.eaten, turns[n], bearing, width, height);
      PassResult(prev.fish + [t.fish], t.eaten)
  }

  /** The pass over one more fish is the pass so far followed by that fish's update. */
  lemma FishPassStep(fish: seq<Fish>, i: nat, food: seq<Food>, turns: seq<TurnDraw>,
                     bearing: (real, real) -> (real, real), width: real, height: real)
    requires i < |fish| <= |turns|
    ensures var prev := FishPass(fish[..i], food, turns, bearing, width, height);
      var t := FishTick(fish[i], food, prev.eaten, turns[i], bearing, width, height);
      FishPass(fish[..i + 1], food, turns, bearing, width, height) == PassResult(prev.fish + [t.fish], t.eaten)
  {
    assert fish[..i + 1][..i] == fish[..i];
  }

  /**
    Over a whole tick only ids of pellets present at its start are eaten, each at most once,
    so no more pellets are eaten than there are fish.
   */
  lemma {:induction false} PassEatenBound(fish: seq<Fish>, food: seq<Food>, turns: seq<TurnDraw>,
                                          bearing: (real, real) -> (real, real), width: real, height: real)
    requires |fish| <= |turns|
    ensures var r := FishPass(fish, food, turns, bearing, width, height);
      r.eaten <= FoodIds(food) && |r.eaten| <= |fish|
  {
    if fish != [] {
      var n := |fish| - 1;
      PassEatenBound(fish[..n], food, turns, bearing, width, height);
      var prev := FishPass(fish[..n], food, turns, bearing, width, height);
      TickEatsAtMostOne(fish[n], food, prev.eaten, turns[n], bearing, width, height);
    }
  }

  /** Every fish keeps its place in the array and its identity through a tick. */
  lemma {:induction false} PassKeepsOrder(fish: seq<Fish>, food: seq<Food>, turns: seq<TurnDraw>,
                                          bearing: (real, real) -> (real, real), width: real, height: real)
    requires |fish| <= |turns|
    ensures var r := FishPass(fish, food, turns, bearing, width, height);
      forall i :: 0 <= i < |fish| ==>
        && r.fish[i].id == fish[i].id && r.fish[i].speed == fish[i].speed
        && r.fish[i].size == fish[i].size && r.fish[i].color == fish[i].color
        && r.fish[i].animationTicker == fish[i].animationTicker + 1.0
  {
    if fish != [] {
      var n := |fish| - 1;
      PassKeepsOrder(fish[..n], food, turns, bearing, width, height);
      var prev := FishPass(fish[..n], food, turns, bearing, width, height);
      TickKeepsIdentity(fish[n], food, prev.eaten, turns[n], bearing, width, height);
    }
  }

  // ---------------------------------------------------------------------------
  // Food (lines 127-131)

  /** Every pellet, in place, moved down by the sink speed. */
  function Sink(food: seq<Food>): (r: seq<Food>)
    ensures |r| == |food|
    ensures forall i :: 0 <= i < |food| ==> r[i] == food[i].(y := food[i].y + FOOD_SINK_SPEED)
  {
    if food == [] then [] else [food[0].(y := food[0].y + FOOD_SINK_SPEED)] + Sink(food[1..])
  }

  /** The test of `.filter`: above the sand line and not eaten this tick. */
  predicate Survives(p: Food, eaten: set<FoodId>, height: real) {
    p.y < height - SAND_HEIGHT && p.id !in eaten
  }

  /** The pellets that pass `Survives`, in their original order. */
  function KeepSurvivors(food: seq<Food>, eaten: set<FoodId>, height: real): (r: seq<Food>)
    ensures |r| <= |food|
    ensures forall p :: p in r <==> p in food && Survives(p, eaten, height)
  {
    if food == [] then []
    else
      var rest := KeepSurvivors(food[1..], eaten, height);
      assert food == [food[0]] + food[1..];
      if Survives(food[0], eaten, height) then [food[0]] + rest else rest
  }

  /** A kept pellet appears as often after the filter as before it; a dropped one not at all. */
  lemma {:induction false} KeepSurvivorsCounts(food: seq<Food>, eaten: set<FoodId>, height: real)
    ensures var r := KeepSurvivors(food, eaten, height);
      forall p :: multiset(r)[p] == if Survives(p, eaten, height) then multiset(food)[p] else 0
  {
    if food != [] {
      KeepSurvivorsCounts(food[1..], eaten, height);
      assert food == [food[0]] + food[1..];
    }
  }

  /** `s` is `t` with some elements left out, the rest in their original order. */
  predicate IsSubsequence<T(==)>(s: seq<T>, t: seq<T>)
    decreases |t|
  {
    if s == [] then true
    else if t == [] then false
    else if s[0] == t[0] then IsSubsequence(s[1..], t[1..])
    else IsSubsequence(s, t[1..])
  }

  /** Putting an element in front of the longer sequence keeps a subsequence. */
  lemma {:induction false} SubsequenceCons<T>(s: seq<T>, t: seq<T>, a: T)
    requires IsSubsequence(s, t)
    ensures IsSubsequence(s, [a] + t)
    decreases |t|, 1
  {
    assert ([a] + t)[1..] == t;
    if s != [] && s[0] == a {
      SubsequenceTail(s, t);
    }
  }

  /** Leaving out the first element of the shorter sequence keeps a subsequence. */
  lemma {:induction false} SubsequenceTail<T>(s: seq<T>, t: seq<T>)
    requires s != [] && IsSubsequence(s, t)
    ensures IsSubsequence(s[1..], t)
    decreases |t|, 0
  {
    assert t == [t[0]] + t[1..];
    if s[0] == t[0] {
      SubsequenceCons(s[1..], t[1..], t[0]);
    } else {
      SubsequenceTail(s, t[1..]);
      SubsequenceCons(s[1..], t[1..], t[0]);
    }
  }

  /** The filter keeps the surviving pellets in their original order. */
  lemma {:induction false} KeepSurvivorsInOrder(food: seq<Food>, eaten: set<FoodId>, height: real)
    ensures IsSubsequence(KeepSurvivors(food, eaten, height), food)
  {
    if food != [] {
      var rest := KeepSurvivors(food[1..], eaten, height);
      KeepSurvivorsInOrder(food[1..], eaten, height);
      if Survives(food[0], eaten, height) {
        assert ([food[0]] + rest)[1..] == rest;
      } else {
        SubsequenceCons(rest, food[1..], food[0]);
        assert food == [food[0]] + food[1..];
      }
    }
  }

  /**
    The food array after a tick (lines 128-131): never longer, and every pellet left is
    above the sand line and was not eaten.
   */
  function NextFood(food: seq<Food>, eaten: set<FoodId>, height: real): (r: seq<Food>)
    ensures |r| <= |food|
    ensures forall p :: p in r ==> Survives(p, eaten, height)
  {
    KeepSurvivors(Sink(food), eaten, height)
  }

  /**
    After a tick the food is the old food, each pellet moved down by FOOD_SINK_SPEED and
    otherwise unchanged, keeping exactly those above the sand line whose id was not eaten,
    each as often as before and in the original order.
   */
  lemma NextFoodSpec(food: seq<Food>, eaten: set<FoodId>, height: real)
    ensures var r := NextFood(food, eaten, height);
      && IsSubsequence(r, Sink(food))
      && (forall p :: p in r <==> p in Sink(food) && Survives(p, eaten, height))
      && (forall p :: Survives(p, eaten, height) ==> multiset(r)[p] == multiset(Sink(food))[p])
      && (forall i :: 0 <= i < |food| && Survives(Sink(food)[i], eaten, height) ==>
            food[i].(y := food[i].y + FOOD_SINK_SPEED) in r)
  {
    KeepSurvivorsInOrder(Sink(food), eaten, height);
    KeepSurvivorsCounts(Sink(food), eaten, height);
  }

  /** The food after one tick for each eaten set of `eatens`, in order. */
  function Feed(food: seq<Food>, eatens: seq<set<FoodId>>, height: real): seq<Food>
    decreases |eatens|
  {
    if eatens == [] then food else Feed(NextFood(food, eatens[0], height), eatens[1..], height)
  }

  /** After at least one tick every pellet left is above the sand line. */
  lemma {:induction false} FeedAboveSand(food: seq<Food>, eatens: seq<set<FoodId>>, height: real)
    requires eatens != []
    ensures forall q :: q in Feed(food, eatens, height) ==> q.y < height - SAND_HEIGHT
    decreases |eatens|
  {
    var next := NextFood(food, eatens[0], height);
    if |eatens| > 1 {
      FeedAboveSand(next, eatens[1..], height);
    } else {
      assert Feed(next, eatens[1..], height) == next;
    }
  }

  /**
    The life of a pellet whose id is never eaten: after k >= 1 ticks it is present, moved
    down by k times the sink speed, exactly while that position is above the sand line. It
    is removed in the very tick whose sinking takes it to the line, because the filter
    looks at the position after the move.
   */
  lemma FoodLifecycle(food: seq<Food>, eatens: seq<set<FoodId>>, height: real, p: Food)
    requires p in food
    requires forall j :: 0 <= j < |eatens| ==> p.id !in eatens[j]
    ensures eatens != [] ==>
      (p.(y := p.y + |eatens| as real * FOOD_SINK_SPEED) in Feed(food, eatens, height)
       <==> p.y + |eatens| as real * FOOD_SINK_SPEED < height - SAND_HEIGHT)
  {
    if eatens != [] {
      FeedAboveSand(food, eatens, height);
      if p.y + |eatens| as real * FOOD_SINK_SPEED < height - SAND_HEIGHT {
        FoodPersists(food, eatens, height, p);
      }
    }
  }

  /** A pellet whose id is never eaten is still there, sunk, while it stays above the sand line. */
  lemma {:induction false} FoodPersists(food: seq<Food>, eatens: seq<set<FoodId>>, height: real, p: Food)
    requires p in food
    requires forall j :: 0 <= j < |eatens| ==> p.id !in eatens[j]
    requires p.y + |eatens| as real * FOOD_SINK_SPEED < height - SAND_HEIGHT
    ensures p.(y := p.y + |eatens| as real * FOOD_SINK_SPEED) in Feed(food, eatens, height)
    decreases |eatens|
  {
    if eatens != [] {
      var rest := eatens[1..];
      var next := NextFood(food, eatens[0], height);
      var q := p.(y := p.y + FOOD_SINK_SPEED);
      assert q in next && q.y + |rest| as real * FOOD_SINK_SPEED < height - SAND_HEIGHT by {
        assert FOOD_SINK_SPEED == 1.0 && |rest| == |eatens| - 1;
        SinkOne(food, eatens[0], height, p);
      }
      assert forall j :: 0 <= j < |rest| ==> q.id !in rest[j] by {
        assert forall j :: 0 <= j < |rest| ==> rest[j] == eatens[j + 1];
      }
      FoodPersists(next, rest, height, q);
      assert q.(y := q.y + |rest| as real * FOOD_SINK_SPEED)
          == p.(y := p.y + |eatens| as real * FOOD_SINK_SPEED) by {
        assert FOOD_SINK_SPEED == 1.0 && |rest| == |eatens| - 1;
      }
    } else {
      assert p.(y := p.y + |eatens| as real * FOOD_SINK_SPEED) == p;
    }
  }

  /** One tick moves a pellet whose id was not eaten down by the sink speed, or drops it at the sand. */
  lemma SinkOne(food: seq<Food>, eaten: set<FoodId>, height: real, p: Food)
    requires p in food && p.id !in eaten
    ensures var q := p.(y := p.y + FOOD_SINK_SPEED);
      q in NextFood(food, eaten, height) <==> q.y < height - SAND_HEIGHT
  {
    var i :| 0 <= i < |food| && food[i] == p;
    assert Sink(food)[i] == p.(y := p.y + FOOD_SINK_SPEED);
  }

  // ---------------------------------------------------------------------------
  // Bubbles (lines 133-139)

  /**
    One bubble of the `forEach` of line 134: rise by its speed, respawn above the top. The
    bubble keeps its id, and a bubble that stays is moved straight up.
   */
  function Rise(b: Bubble, d: BubbleDraw, width: real, height: real): (r: Bubble)
    ensures r.id == b.id
    ensures r.x == b.x || r == CreateBubble(b.id, d, width, height)
  {
    var risen := b.(y := b.y - b.speed);
    if risen.y < -risen.size then CreateBubble(b.id, d, width, height) else risen
  }

  /**
    A bubble keeps its id. Either it moved up by exactly its own speed and nothing else
    changed, or that move took it above `-size` and it was replaced by a fresh bubble
    below the bottom of the tank.
   */
  lemma RiseSpec(b: Bubble, d: BubbleDraw, width: real, height: real)
    ensures var r := Rise(b, d, width, height);
      && r.id == b.id
      && (b.y - b.speed >= -b.size ==> r == b.(y := b.y - b.speed))
      && (b.y - b.speed < -b.size && IsBubbleDraw(d) && width > 0.0 ==>
            && 0.0 <= r.x < width && height <= r.y < height + 50.0
            && BUBBLE_SIZE_MIN <= r.size < BUBBLE_SIZE_MAX
            && BUBBLE_SPEED_MIN <= r.speed < BUBBLE_SPEED_MAX)
  {
  }

  // ---------------------------------------------------------------------------
  // The tank state and its tick

  /**
    The state behind `useAquarium(width, height)`: fish and bubbles are arrays whose
    records the tick updates in place; food is replaced by a new array every tick and grown
    by `addFood`.
   */
  class Tank {
    const width: real
    const height: real
    const fish: array<Fish>
    const bubbles: array<Bubble>
    var food: seq<Food>

    /** The initialisation effect (lines 60-64) for a tank of the given size. */
    constructor (width: real, height: real, fishDraws: seq<FishDraw>, bubbleDraws: seq<BubbleDraw>)
      requires |fishDraws| == NUM_FISH && |bubbleDraws| == NUM_BUBBLES
      requires forall i :: 0 <= i < |fishDraws| ==> IsRandomDraw(fishDraws[i].color)
      ensures this.width == width && this.height == height
      ensures fresh(fish) && fresh(bubbles)
      ensures fish.Length == NUM_FISH && bubbles.Length == NUM_BUBBLES
      ensures forall i :: 0 <= i < NUM_FISH ==> fish[i] == CreateFish(i, fishDraws[i], width, height)
      ensures forall i :: 0 <= i < NUM_BUBBLES ==> bubbles[i] == CreateBubble(i, bubbleDraws[i], width, height)
      ensures food == []
    {
      this.width := width;
      this.height := height;
      fish := new Fish[NUM_FISH](i requires 0 <= i < NUM_FISH => CreateFish(i, fishDraws[i], width, height));
      bubbles := new Bubble[NUM_BUBBLES](i requires 0 <= i < NUM_BUBBLES => CreateBubble(i, bubbleDraws[i], width, height));
      food := [];
    }

    /**
      `gameLoop` (lines 68-143) without the scheduling: every fish in array order, then the
      food, then every bubble.
     */
    method Step(turns: seq<TurnDraw>, bearing: (real, real) -> (real, real), spawns: seq<BubbleDraw>)
      requires |turns| == fish.Length && |spawns| == bubbles.Length
      modifies this, fish, bubbles
      ensures var pass := FishPass(old(fish[..]), old(food), turns, bearing, width, height);
        fish[..] == pass.fish && food == NextFood(old(food), pass.eaten, height)
      ensures forall k :: 0 <= k < bubbles.Length ==> bubbles[k] == Rise(old(bubbles[k]), spawns[k], width, height)
    {
      var eatenFoodIds := UpdateAllFish(turns, bearing);
      food := NextFood(food, eatenFoodIds, height);
      RiseAll(spawns);
    }

    /** Lines 70-125: the `forEach` over the fish, threading the eaten set. */
    method UpdateAllFish(turns: seq<TurnDraw>, bearing: (real, real) -> (real, real))
      returns (eatenFoodIds: set<FoodId>)
      requires |turns| == fish.Length
      modifies fish
      ensures var pass := FishPass(old(fish[..]), food, turns, bearing, width, height);
        fish[..] == pass.fish && eatenFoodIds == pass.eaten
    {
      ghost var fish0 := fish[..];
      eatenFoodIds := {};
      for i := 0 to fish.Length
        invariant forall j :: i <= j < fish.Length ==> fish[j] == fish0[j]
        invariant FishPass(fish0[..i], food, turns, bearing, width, height) == PassResult(fish[..i], eatenFoodIds)
      {
        var r := UpdateFish(fish[i], food, eatenFoodIds, turns[i], bearing, width, height);
        FishPassStep(fish0, i, food, turns, bearing, width, height);
        ghost var done := fish[..i];
        fish[i] := r.fish;
        eatenFoodIds := r.eaten;
        assert fish[..i + 1] == done + [r.fish];
      }
      assert fish0[..fish.Length] == fish0;
    }

    /** Lines 133-139: every bubble rises, and one above the top is replaced. */
    method RiseAll(spawns: seq<BubbleDraw>)
      requires |spawns| == bubbles.Length
      modifies bubbles
      ensures forall k :: 0 <= k < bubbles.Length ==> bubbles[k] == Rise(old(bubbles[k]), spawns[k], width, height)
    {
      for k := 0 to bubbles.Length
        invariant forall j :: 0 <= j < k ==> bubbles[j] == Rise(old(bubbles[j]), spawns[j], width, height)
        invariant forall j :: k <= j < bubbles.Length ==> bubbles[j] == old(bubbles[j])
      {
        var b := bubbles[k];
        b := b.(y := b.y - b.speed);
        if b.y < -b.size {
          b := CreateBubble(b.id, spawns[k], width, height);
        }
        bubbles[k] := b;
      }
    }

    /** `addFood` (lines 154-161): one pellet with the given fresh id appended at the top. */
    method AddFood(id: FoodId, u: real)
      modifies this
      ensures food == old(food) + [NewFood(id, u, width)]
    {
      food := food + [NewFood(id, u, width)];
    }
  }
}
