/**
 * Model of Firmware/src/insomniac.c: the sign-mask absolute value, the
 * one-byte mouse-delta direction codes, and the Bresenham loop that turns a
 * target offset into an ordered stream of single-axis unit steps.
 */
module Insomniac {

  /** C's int16_t and int32_t. */
  type Int16 = x: int | -0x8000 <= x < 0x8000
  type Int32 = x: int | -0x8000_0000 <= x < 0x8000_0000

  /** position_t: signed 16-bit X/Y co-ordinates relative to the origin. */
  datatype Position = Position(x: Int16, y: Int16)

  /** mouse_delta_t: one byte holding two nibbles, [Up/Down] [Left/Right]. */
  type MouseDelta = bv8

  const DeltaUp: MouseDelta := 0xC0
  const DeltaDown: MouseDelta := 0x30
  const DeltaLeft: MouseDelta := 0x0C
  const DeltaRight: MouseDelta := 0x03

  predicate IsHorizontal(d: MouseDelta) { d == DeltaLeft || d == DeltaRight }
  predicate IsVertical(d: MouseDelta) { d == DeltaUp || d == DeltaDown }

  /** The Left/Right nibble and the Up/Down nibble of a code. */
  function HorizontalPart(d: MouseDelta): MouseDelta { d & 0x0F }
  function VerticalPart(d: MouseDelta): MouseDelta { d & 0xF0 }

  /** Every code sets bits in exactly one nibble, and distinct codes share no bit. */
  lemma DirectionCodesDisjoint(d: MouseDelta, e: MouseDelta)
    ensures IsHorizontal(d) ==> HorizontalPart(d) == d && VerticalPart(d) == 0
    ensures IsVertical(d) ==> VerticalPart(d) == d && HorizontalPart(d) == 0
    ensures (IsHorizontal(d) || IsVertical(d)) && (IsHorizontal(e) || IsVertical(e)) && d != e
            ==> d & e == 0
  {
  }

  /**
   * OR-ing one horizontal code with one vertical code is unambiguous: both
   * codes can be read back from the combined byte.
   */
  function Combine(h: MouseDelta, v: MouseDelta): (r: MouseDelta)
    requires IsHorizontal(h) && IsVertical(v)
    ensures HorizontalPart(r) == h && VerticalPart(r) == v
    ensures !IsHorizontal(r) && !IsVertical(r)
  {
    h | v
  }

  // ---------------------------------------------------------------------
  // int_abs
  // ---------------------------------------------------------------------

  /** C's uint32_t. */
  type UInt32 = x: int | 0 <= x < 0x1_0000_0000

  /**
   * C's conversion to uint32_t of a value within one wrap of its range,
   * which is all int_abs converts: a negative value gains 2^32.
   */
  function ToUInt32(x: int): UInt32
    requires -0x1_0000_0000 <= x < 0x1_0000_0000
  {
    if x < 0 then x + 0x1_0000_0000 else x
  }

  /** The conversion is reduction modulo 2^32, as the C standard defines it. */
  lemma ToUInt32IsModulo(x: int)
    requires -0x1_0000_0000 <= x < 0x1_0000_0000
    ensures ToUInt32(x) == x % 0x1_0000_0000
  {
    if x < 0 {
      assert x + 0x1_0000_0000 == x - (-1) * 0x1_0000_0000;
    }
  }

  function Pow2(n: nat): (r: nat)
    ensures r >= 1
  {
    if n == 0 then 1 else 2 * Pow2(n - 1)
  }

  /** Bitwise exclusive or of the low `width` bits of a and b. */
  function Xor(a: nat, b: nat, width: nat): nat
  {
    if width == 0 then 0
    else (if a % 2 == b % 2 then 0 else 1) + 2 * Xor(a / 2, b / 2, width - 1)
  }

  /** XOR with zero leaves a value of `width` bits unchanged. */
  lemma {:induction false} XorZero(a: nat, width: nat)
    requires a < Pow2(width)
    ensures Xor(a, 0, width) == a
  {
    if width > 0 {
      XorZero(a / 2, width - 1);
    }
  }

  /** XOR with the all-ones mask of `width` bits is the one's complement. */
  lemma {:induction false} XorAllOnes(a: nat, width: nat)
    requires a < Pow2(width)
    ensures Xor(a, Pow2(width) - 1, width) == Pow2(width) - 1 - a
  {
    if width > 0 {
      XorAllOnes(a / 2, width - 1);
      assert (Pow2(width) - 1) / 2 == Pow2(width - 1) - 1;
      assert (Pow2(width) - 1) % 2 == 1;
    }
  }

  /**
   * `x >> 31` on an int32_t: GCC shifts copies of the sign bit in, so the
   * mask is all ones (-1) for a negative x and 0 otherwise.
   */
  function SignMask(x: Int32): Int32
  {
    if x < 0 then -1 else 0
  }

  /** The sign mask is the arithmetic shift x >> 31: floor division by 2^31. */
  lemma SignMaskIsShift(x: Int32)
    ensures SignMask(x) == x / 0x8000_0000
  {
    if x < 0 {
      assert x == -1 * 0x8000_0000 + (x + 0x8000_0000);
    }
  }

  /**
   * int_abs: mask = x >> 31, converted to uint32_t, and (x ^ mask) - mask,
   * computed in uint32_t, is |x|. The result is exact for every int32_t,
   * INT32_MIN included, because it is unsigned.
   */
  function IntAbs(x: Int32): (r: UInt32)
    ensures r == Abs(x)
  {
    var mask := ToUInt32(SignMask(x));
    IntAbsIdentity(x);
    ToUInt32(Xor(ToUInt32(x), mask, 32) - mask)
  }

  /** The sign-mask identity behind int_abs, computed in uint32_t. */
  lemma IntAbsIdentity(x: Int32)
    ensures Xor(ToUInt32(x), ToUInt32(SignMask(x)), 32)
            == if x < 0 then 0xFFFF_FFFF - ToUInt32(x) else ToUInt32(x)
  {
    Pow2Of32();
    if x < 0 {
      assert ToUInt32(SignMask(x)) == Pow2(32) - 1;
      XorAllOnes(ToUInt32(x), 32);
    } else {
      assert ToUInt32(SignMask(x)) == 0;
      XorZero(ToUInt32(x), 32);
    }
  }

  lemma {:induction false} Pow2Add(a: nat, b: nat)
    ensures Pow2(a + b) == Pow2(a) * Pow2(b)
  {
    if a > 0 {
      Pow2Add(a - 1, b);
    }
  }

  lemma Pow2Of32()
    ensures Pow2(32) == 0x1_0000_0000
  {
    assert Pow2(2) == 4 by { assert Pow2(1) == 2; }
    Pow2Add(2, 2);
    assert Pow2(4) == 16;
    Pow2Add(4, 4);
    assert Pow2(8) == 0x100;
    Pow2Add(8, 8);
    assert Pow2(16) == 0x1_0000;
    Pow2Add(16, 16);
  }

  // ---------------------------------------------------------------------
  // Unit-step streams
  // ---------------------------------------------------------------------

  /** The code of a horizontal step towards `target`: "right" exactly when x_step is +1. */
  function XDirection(target: Int16): MouseDelta { if 0 < target then DeltaRight else DeltaLeft }

  /** The code of a vertical step towards `target`: "up" exactly when y_step is +1. */
  function YDirection(target: Int16): MouseDelta { if 0 < target then DeltaUp else DeltaDown }

  function Abs(v: int): int { if v < 0 then -v else v }

  function Max(a: int, b: int): int { if a < b then b else a }

  /** Displacement of one step along the x-axis and along the y-axis. */
  function DeltaX(d: MouseDelta): int
  {
    if d == DeltaRight then 1 else if d == DeltaLeft then -1 else 0
  }

  function DeltaY(d: MouseDelta): int
  {
    if d == DeltaUp then 1 else if d == DeltaDown then -1 else 0
  }

  /** The point reached by replaying a step stream from the origin. */
  function Replay(steps: seq<MouseDelta>): (int, int)
  {
    if steps == [] then (0, 0)
    else
      var p := Replay(steps[..|steps| - 1]);
      var d := steps[|steps| - 1];
      (p.0 + DeltaX(d), p.1 + DeltaY(d))
  }

  /** Number of occurrences of `d` in `steps`. */
  function Count(steps: seq<MouseDelta>, d: MouseDelta): nat
  {
    if steps == [] then 0
    else Count(steps[..|steps| - 1], d) + (if steps[|steps| - 1] == d then 1 else 0)
  }

  /** `v` lies between the origin and `target` on one axis, both included. */
  predicate Between(v: int, target: int)
  {
    if 0 <= target then 0 <= v <= target else target <= v <= 0
  }

  /** No prefix of the stream leaves the box spanned by the origin and `target`. */
  ghost predicate NoOvershoot(steps: seq<MouseDelta>, target: Position)
  {
    forall k :: 0 <= k <= |steps| ==>
      Between(Replay(steps[..k]).0, target.x) && Between(Replay(steps[..k]).1, target.y)
  }

  /** The output of one loop iteration: a horizontal step, a vertical step, or both in that order. */
  predicate IsIterationOutput(chunk: seq<MouseDelta>, h: MouseDelta, v: MouseDelta)
  {
    chunk == [h] || chunk == [v] || chunk == [h, v]
  }

  /** Every step of the stream is `h` or `v`. */
  predicate InDirections(steps: seq<MouseDelta>, h: MouseDelta, v: MouseDelta)
  {
    forall k :: 0 <= k < |steps| ==> steps[k] == h || steps[k] == v
  }

  predicate AllIterationOutputs(chunks: seq<seq<MouseDelta>>, h: MouseDelta, v: MouseDelta)
  {
    forall k :: 0 <= k < |chunks| ==> IsIterationOutput(chunks[k], h, v)
  }

  function Flatten(chunks: seq<seq<MouseDelta>>): seq<MouseDelta>
  {
    if chunks == [] then [] else Flatten(chunks[..|chunks| - 1]) + chunks[|chunks| - 1]
  }

  lemma CountSnoc(steps: seq<MouseDelta>, e: MouseDelta, d: MouseDelta)
    ensures Count(steps + [e], d) == Count(steps, d) + (if e == d then 1 else 0)
  {
    assert (steps + [e])[..|steps|] == steps;
  }

  lemma FlattenSnoc(chunks: seq<seq<MouseDelta>>, c: seq<MouseDelta>)
    ensures Flatten(chunks + [c]) == Flatten(chunks) + c
  {
    assert (chunks + [c])[..|chunks|] == chunks;
  }

  /** Replaying a stream of steps in two fixed directions moves by their counts. */
  lemma {:induction false} ReplayCounts(steps: seq<MouseDelta>, h: MouseDelta, v: MouseDelta)
    requires IsHorizontal(h) && IsVertical(v)
    requires InDirections(steps, h, v)
    ensures Replay(steps).0 == DeltaX(h) * Count(steps, h)
    ensures Replay(steps).1 == DeltaY(v) * Count(steps, v)
  {
    if steps != [] {
      var init := steps[..|steps| - 1];
      ReplayCounts(init, h, v);
      assert steps == init + [steps[|steps| - 1]];
      CountSnoc(init, steps[|steps| - 1], h);
      CountSnoc(init, steps[|steps| - 1], v);
    }
  }

  /** A prefix holds no more occurrences of a code than the whole stream. */
  lemma {:induction false} CountPrefix(steps: seq<MouseDelta>, k: nat, d: MouseDelta)
    requires k <= |steps|
    ensures Count(steps[..k], d) <= Count(steps, d)
  {
    if k < |steps| {
      var init := steps[..|steps| - 1];
      CountPrefix(init, k, d);
      assert init[..k] == steps[..k];
    } else {
      assert steps[..k] == steps;
    }
  }

  /** Appending one iteration's output keeps the stream in two directions and adds to the counts. */
  lemma AppendIteration(steps: seq<MouseDelta>, chunk: seq<MouseDelta>, h: MouseDelta, v: MouseDelta)
    requires IsHorizontal(h) && IsVertical(v)
    requires chunk == [] || IsIterationOutput(chunk, h, v)
    requires InDirections(steps, h, v)
    ensures InDirections(steps + chunk, h, v)
    ensures Count(steps + chunk, h) == Count(steps, h) + (if h in chunk then 1 else 0)
    ensures Count(steps + chunk, v) == Count(steps, v) + (if v in chunk then 1 else 0)
  {
    if chunk == [h, v] {
      CountSnoc(steps, h, h);
      CountSnoc(steps, h, v);
      CountSnoc(steps + [h], v, h);
      CountSnoc(steps + [h], v, v);
      assert steps + chunk == steps + [h] + [v];
    } else if chunk == [h] {
      CountSnoc(steps, h, h);
      CountSnoc(steps, h, v);
    } else if chunk == [v] {
      CountSnoc(steps, v, h);
      CountSnoc(steps, v, v);
    } else {
      assert steps + chunk == steps;
    }
  }

  /** A stream in two distinct directions is as long as its two counts together. */
  lemma {:induction false} CountsCover(steps: seq<MouseDelta>, h: MouseDelta, v: MouseDelta)
    requires h != v && InDirections(steps, h, v)
    ensures |steps| == Count(steps, h) + Count(steps, v)
  {
    if steps != [] {
      CountsCover(steps[..|steps| - 1], h, v);
    }
  }

  /**
   * A stream made only of |x| steps towards x and |y| steps towards y ends at
   * the target and never overshoots it on either axis.
   */
  lemma ReachesTarget(steps: seq<MouseDelta>, target: Position)
    requires InDirections(steps, XDirection(target.x), YDirection(target.y))
    requires Count(steps, XDirection(target.x)) == Abs(target.x)
    requires Count(steps, YDirection(target.y)) == Abs(target.y)
    ensures Replay(steps) == (target.x as int, target.y as int)
    ensures NoOvershoot(steps, target)
  {
    var h, v := XDirection(target.x), YDirection(target.y);
    ReplayCounts(steps, h, v);
    forall k | 0 <= k <= |steps|
      ensures Between(Replay(steps[..k]).0, target.x) && Between(Replay(steps[..k]).1, target.y)
    {
      ReplayCounts(steps[..k], h, v);
      CountPrefix(steps, k, h);
      CountPrefix(steps, k, v);
    }
  }

  // ---------------------------------------------------------------------
  // move_to_endpoint
  // ---------------------------------------------------------------------

  /**
   * The arithmetic state of move_to_endpoint's loop after some iterations:
   * the number of horizontal (i) and vertical (j) steps taken, and err.
   */
  datatype Progress = Progress(i: int, j: int, err: int)

  /** Whether the iteration taken from state `p` steps horizontally (err2 > -y_delta). */
  predicate StepsX(target: Position, p: Progress) { 2 * p.err > -Abs(target.y) }

  /** Whether the iteration taken from state `p` steps vertically (err2 < x_delta). */
  predicate StepsY(target: Position, p: Progress) { 2 * p.err < Abs(target.x) }

  /** The state after one iteration of the loop towards `target` from state `p`. */
  function Advance(target: Position, p: Progress): Progress
  {
    var stepX, stepY := StepsX(target, p), StepsY(target, p);
    Progress(if stepX then p.i + 1 else p.i,
             if stepY then p.j + 1 else p.j,
             p.err - (if stepX then Abs(target.y) else 0) + (if stepY then Abs(target.x) else 0))
  }

  /** The steps printed by the iteration taken from state `p`: the horizontal one first. */
  function Chunk(target: Position, p: Progress): (c: seq<MouseDelta>)
    ensures StepsX(target, p) || StepsY(target, p) ==> IsIterationOutput(c, XDirection(target.x), YDirection(target.y))
    ensures XDirection(target.x) in c <==> StepsX(target, p)
    ensures YDirection(target.y) in c <==> StepsY(target, p)
  {
    (if StepsX(target, p) then [XDirection(target.x)] else [])
      + (if StepsY(target, p) then [YDirection(target.y)] else [])
  }

  /** The state after n iterations, starting from err = x_delta - y_delta. */
  function Iterate(target: Position, n: nat): Progress
  {
    if n == 0 then Progress(0, 0, Abs(target.x) - Abs(target.y))
    else Advance(target, Iterate(target, n - 1))
  }

  /** The outputs of the first n iterations, one chunk per iteration. */
  function Chunks(target: Position, n: nat): (cs: seq<seq<MouseDelta>>)
    ensures |cs| == n
  {
    if n == 0 then [] else Chunks(target, n - 1) + [Chunk(target, Iterate(target, n - 1))]
  }

  /** The number of iterations move_to_endpoint runs for: the larger delta. */
  function Iterations(target: Position): nat
  {
    Max(Abs(target.x), Abs(target.y))
  }

  /** The steps printed by the first n iterations. */
  function Output(target: Position, n: nat): seq<MouseDelta>
  {
    if n == 0 then [] else Output(target, n - 1) + Chunk(target, Iterate(target, n - 1))
  }

  /** The steps printed by the first n iterations are their chunks laid end to end. */
  lemma {:induction false} OutputChunks(target: Position, n: nat)
    ensures Flatten(Chunks(target, n)) == Output(target, n)
  {
    if n > 0 {
      OutputChunks(target, n - 1);
      FlattenSnoc(Chunks(target, n - 1), Chunk(target, Iterate(target, n - 1)));
    }
  }

  /** The whole step stream move_to_endpoint prints for `target`. */
  function Trace(target: Position): seq<MouseDelta>
  {
    Output(target, Iterations(target))
  }

  /**
   * Bresenham's line algorithm from (0,0) to `endpoint`: each printed step is
   * appended to `steps`. The ghost `chunks` groups the stream by iteration.
   */
  method MoveToEndpoint(endpoint: Position) returns (steps: seq<MouseDelta>, ghost chunks: seq<seq<MouseDelta>>)
    ensures steps == Trace(endpoint)
    ensures InDirections(steps, XDirection(endpoint.x), YDirection(endpoint.y))
    ensures Count(steps, XDirection(endpoint.x)) == Abs(endpoint.x)
    ensures Count(steps, YDirection(endpoint.y)) == Abs(endpoint.y)
    ensures Replay(steps) == (endpoint.x as int, endpoint.y as int)
    ensures NoOvershoot(steps, endpoint)
    ensures |steps| == Abs(endpoint.x) + Abs(endpoint.y)
    ensures Flatten(chunks) == steps
    ensures chunks == Chunks(endpoint, Iterations(endpoint)) && |chunks| == Iterations(endpoint)
    ensures AllIterationOutputs(chunks, XDirection(endpoint.x), YDirection(endpoint.y))
  {
    var startpoint := Position(0, 0);
    var xDelta: Int32 := IntAbs(endpoint.x - startpoint.x);
    var yDelta: Int32 := IntAbs(endpoint.y - startpoint.y);
    var xStep: Int32 := if startpoint.x < endpoint.x then 1 else -1;
    var yStep: Int32 := if startpoint.y < endpoint.y then 1 else -1;
    var err: Int32 := xDelta - yDelta;
    ghost var n: nat, p := 0, Iterate(endpoint, 0);
    steps := [];

    while startpoint.x != endpoint.x || startpoint.y != endpoint.y
      invariant Tracks(endpoint, n, p, startpoint, err) && steps == Output(endpoint, n)
      decreases Iterations(endpoint) - n
    {
      startpoint, err, steps := StepOnce(endpoint, n, p, xDelta, yDelta, xStep, yStep, startpoint, err, steps);
      n, p := n + 1, Advance(endpoint, p);
    }
    LoopExit(endpoint, n, p, startpoint, err);
    chunks := Chunks(endpoint, n);
    OutputChunks(endpoint, n);
    TraceProperties(endpoint);
  }

  /**
   * One pass of the loop body of move_to_endpoint: the current err is
   * doubled, a horizontal step is printed and taken when err2 > -y_delta,
   * then a vertical one when err2 < x_delta, each adjusting err. From the
   * state after n iterations it reaches the state after n + 1, and the
   * printed stream grows to Output(endpoint, n + 1).
   */
  method StepOnce(endpoint: Position, ghost n: nat, ghost p: Progress, xDelta: Int32, yDelta: Int32,
                  xStep: Int32, yStep: Int32, startpoint0: Position, err0: Int32, steps0: seq<MouseDelta>)
    returns (startpoint: Position, err: Int32, steps: seq<MouseDelta>)
    requires Tracks(endpoint, n, p, startpoint0, err0) && steps0 == Output(endpoint, n) && startpoint0 != endpoint
    requires xDelta == Abs(endpoint.x) && yDelta == Abs(endpoint.y)
    requires xStep == (if 0 < endpoint.x then 1 else -1) && yStep == (if 0 < endpoint.y then 1 else -1)
    ensures Tracks(endpoint, n + 1, Advance(endpoint, p), startpoint, err) && steps == Output(endpoint, n + 1)
  {
    startpoint, err, steps := startpoint0, err0, steps0;
    LoopGuards(endpoint, n, p, xDelta, yDelta, xStep, yStep, startpoint, err);
    var err2: Int32 := err * 2;

    if err2 > -yDelta {
      err := err - yDelta;
      startpoint := startpoint.(x := startpoint.x + xStep);
      steps := steps + [if xStep > 0 then DeltaRight else DeltaLeft];
    }
    ghost var steps1 := steps;

    if err2 < xDelta {
      err := err + xDelta;
      startpoint := startpoint.(y := startpoint.y + yStep);
      steps := steps + [if yStep > 0 then DeltaUp else DeltaDown];
    }

    IterationOutput(endpoint, n, p, steps0, steps1, steps);
  }

  /**
   * The loop variables after n iterations: the state is Iterate(target, n),
   * the running position is i steps along x and j steps along y towards
   * the target, and err is the state's error.
   */
  ghost predicate Tracks(target: Position, n: nat, p: Progress, at: Position, err: int)
  {
    && n <= Iterations(target) && p == Iterate(target, n)
    && at.x == (if 0 < target.x then p.i else -p.i)
    && at.y == (if 0 < target.y then p.j else -p.j)
    && err == p.err
  }

  /**
   * The loop body appends the horizontal step, if any, then the vertical
   * one: the output after n + 1 iterations, and the state is Advance'd.
   */
  lemma IterationOutput(target: Position, n: nat, p: Progress,
                        steps0: seq<MouseDelta>, steps1: seq<MouseDelta>, steps: seq<MouseDelta>)
    requires p == Iterate(target, n) && steps0 == Output(target, n)
    requires steps1 == if StepsX(target, p) then steps0 + [XDirection(target.x)] else steps0
    requires steps == if StepsY(target, p) then steps1 + [YDirection(target.y)] else steps1
    ensures Iterate(target, n + 1) == Advance(target, p)
    ensures steps == Output(target, n + 1)
  {
    var a, b := (if StepsX(target, p) then [XDirection(target.x)] else []),
                (if StepsY(target, p) then [YDirection(target.y)] else []);
    assert Chunk(target, p) == a + b;
    assert steps == steps0 + (a + b);
  }

  /** The running position is the endpoint exactly when Iterations(target) iterations are done. */
  lemma LoopExit(target: Position, n: nat, p: Progress, at: Position, err: int)
    requires Tracks(target, n, p, at, err)
    ensures at == target <==> n == Iterations(target)
  {
    IterateInvariant(target, n);
  }

  /**
   * The facts the loop body needs after n iterations, in the terms of its
   * own variables: the loop has not yet run Iterations(target) times, the
   * tests err2 > -y_delta and err2 < x_delta are StepsX and StepsY, and
   * the int16_t and int32_t arithmetic of the body cannot overflow.
   */
  lemma LoopGuards(target: Position, n: nat, p: Progress, xDelta: int, yDelta: int,
                   xStep: int, yStep: int, at: Position, err: int)
    requires Tracks(target, n, p, at, err) && at != target
    requires xDelta == Abs(target.x) && yDelta == Abs(target.y)
    requires xStep == (if 0 < target.x then 1 else -1) && yStep == (if 0 < target.y then 1 else -1)
    ensures n < Iterations(target)
    ensures StepsX(target, p) == (2 * err > -yDelta) && StepsY(target, p) == (2 * err < xDelta)
    ensures 0 <= xDelta <= 0x8000 && 0 <= yDelta <= 0x8000 && -0x10000 <= err <= 0x10000
    ensures 2 * err > -yDelta ==> -0x8000 <= at.x + xStep < 0x8000
    ensures 2 * err < xDelta ==> -0x8000 <= at.y + yStep < 0x8000
  {
    IterateInvariant(target, n);
    IterationBand(xDelta, yDelta, p.i, p.j, n, p.err);
    IterationGuards(xDelta, yDelta, p.i, p.j, n, p.err);
  }

  /** The stream holds i steps `h` and j steps `v`, and chunks cuts it into iteration outputs. */
  ghost predicate StreamInvariant(chunks: seq<seq<MouseDelta>>, h: MouseDelta, v: MouseDelta, i: int, j: int)
  {
    && InDirections(Flatten(chunks), h, v)
    && Count(Flatten(chunks), h) == i && Count(Flatten(chunks), v) == j
    && AllIterationOutputs(chunks, h, v)
  }

  /** InvariantAfter holds after every n up to Iterations(target), by induction on n. */
  lemma {:induction false} IterateInvariant(target: Position, n: nat)
    requires n <= Iterations(target)
    ensures InvariantAfter(target, n)
  {
    if n > 0 {
      IterateInvariant(target, n - 1);
      InvariantStep(target, n);
    } else {
      InvariantStart(target);
    }
  }

  /**
   * After n iterations the arithmetic loop invariant holds of Iterate(target, n),
   * and the loop is still running exactly when fewer than Iterations(target)
   * iterations are done.
   */
  ghost predicate InvariantAfter(target: Position, n: nat)
  {
    var p, xDelta, yDelta := Iterate(target, n), Abs(target.x), Abs(target.y);
    && LoopInvariant(xDelta, yDelta, p.i, p.j, n, p.err)
    && (n < Iterations(target) <==> p.i != xDelta || p.j != yDelta)
  }

  /** Before the first iteration: i = j = 0 and err = x_delta - y_delta. */
  lemma InvariantStart(target: Position)
    ensures InvariantAfter(target, 0)
  {
    var xDelta, yDelta := Abs(target.x), Abs(target.y);
    assert Iterate(target, 0) == Progress(0, 0, xDelta - yDelta);
    assert LoopInvariant(xDelta, yDelta, 0, 0, 0, xDelta - yDelta) by {
      assert xDelta * (0 + 1) == xDelta && yDelta * (0 + 1) == yDelta;
    }
    IterationBand(xDelta, yDelta, 0, 0, 0, xDelta - yDelta);
  }

  /** One more iteration, while the loop still runs, keeps the invariant. */
  lemma InvariantStep(target: Position, n: nat)
    requires 0 < n <= Iterations(target) && InvariantAfter(target, n - 1)
    ensures InvariantAfter(target, n)
  {
    var xDelta, yDelta := Abs(target.x), Abs(target.y);
    var p, q := Iterate(target, n - 1), Iterate(target, n);
    IterationPreserves(xDelta, yDelta, p.i, p.j, n - 1, p.err, q.i, q.j, q.err);
    IterationBand(xDelta, yDelta, q.i, q.j, n, q.err);
  }

  /**
   * After n iterations, for n up to Iterations(target), the output is i
   * horizontal and j vertical steps, cut into iteration outputs.
   */
  lemma {:induction false} IterateStream(target: Position, n: nat)
    requires n <= Iterations(target)
    ensures var p := Iterate(target, n);
      StreamInvariant(Chunks(target, n), XDirection(target.x), YDirection(target.y), p.i, p.j)
  {
    if n > 0 {
      IterateStream(target, n - 1);
      IterateInvariant(target, n - 1);
      StreamStep(target, n);
    }
  }

  /** Iteration n appends its output, and its steps to the counts, while the loop still runs. */
  lemma StreamStep(target: Position, n: nat)
    requires 0 < n <= Iterations(target) && InvariantAfter(target, n - 1)
    requires var p := Iterate(target, n - 1);
      StreamInvariant(Chunks(target, n - 1), XDirection(target.x), YDirection(target.y), p.i, p.j)
    ensures var q := Iterate(target, n);
      StreamInvariant(Chunks(target, n), XDirection(target.x), YDirection(target.y), q.i, q.j)
  {
    var p := Iterate(target, n - 1);
    IterationGuards(Abs(target.x), Abs(target.y), p.i, p.j, n - 1, p.err);
    ChunkStep(Chunks(target, n - 1), XDirection(target.x), YDirection(target.y), p.i, p.j,
              StepsX(target, p), StepsY(target, p));
  }

  /** Appending one iteration's output re-establishes the stream invariant. */
  lemma ChunkStep(chunks: seq<seq<MouseDelta>>, h: MouseDelta, v: MouseDelta, i: int, j: int,
                  stepX: bool, stepY: bool)
    requires IsHorizontal(h) && IsVertical(v)
    requires StreamInvariant(chunks, h, v, i, j)
    requires stepX || stepY
    ensures var chunk := (if stepX then [h] else []) + (if stepY then [v] else []);
      StreamInvariant(chunks + [chunk], h, v, if stepX then i + 1 else i, if stepY then j + 1 else j)
  {
    var chunk := (if stepX then [h] else []) + (if stepY then [v] else []);
    if stepX && stepY {
      assert chunk == [h, v];
    } else if stepX {
      assert chunk == [h];
    } else {
      assert chunk == [v];
    }
    StreamSnoc(chunks, chunk, h, v, i, j);
  }

  lemma StreamSnoc(chunks: seq<seq<MouseDelta>>, chunk: seq<MouseDelta>, h: MouseDelta, v: MouseDelta,
                   i: int, j: int)
    requires IsHorizontal(h) && IsVertical(v)
    requires StreamInvariant(chunks, h, v, i, j)
    requires IsIterationOutput(chunk, h, v)
    ensures StreamInvariant(chunks + [chunk], h, v,
                            i + (if h in chunk then 1 else 0), j + (if v in chunk then 1 else 0))
  {
    AppendIteration(Flatten(chunks), chunk, h, v);
    FlattenSnoc(chunks, chunk);
    var cs := chunks + [chunk];
    forall k | 0 <= k < |cs|
      ensures IsIterationOutput(cs[k], h, v)
    {
      if k < |chunks| {
        assert cs[k] == chunks[k];
      } else {
        assert cs[k] == chunk;
      }
    }
  }

  /** The stream move_to_endpoint prints has every property the method promises. */
  lemma TraceProperties(target: Position)
    ensures var chunks := Chunks(target, Iterations(target));
      && InDirections(Trace(target), XDirection(target.x), YDirection(target.y))
      && Count(Trace(target), XDirection(target.x)) == Abs(target.x)
      && Count(Trace(target), YDirection(target.y)) == Abs(target.y)
      && Replay(Trace(target)) == (target.x as int, target.y as int)
      && NoOvershoot(Trace(target), target)
      && |Trace(target)| == Abs(target.x) + Abs(target.y)
      && AllIterationOutputs(chunks, XDirection(target.x), YDirection(target.y))
  {
    IterateInvariant(target, Iterations(target));
    IterateStream(target, Iterations(target));
    OutputChunks(target, Iterations(target));
    ReachesTarget(Trace(target), target);
    CountsCover(Trace(target), XDirection(target.x), YDirection(target.y));
  }

  /** move_to_endpoint(-5, 0): five steps left. */
  lemma TraceLeft()
    ensures Trace(Position(-5, 0)) == [DeltaLeft, DeltaLeft, DeltaLeft, DeltaLeft, DeltaLeft]
  {
  }

  /** move_to_endpoint(0, -5): five steps down. */
  lemma TraceDown()
    ensures Trace(Position(0, -5)) == [DeltaDown, DeltaDown, DeltaDown, DeltaDown, DeltaDown]
  {
  }

  /** move_to_endpoint(-5, -5): five iterations, each a step left then a step down. */
  lemma TraceDiagonal()
    ensures Trace(Position(-5, -5))
            == [DeltaLeft, DeltaDown, DeltaLeft, DeltaDown, DeltaLeft,
                DeltaDown, DeltaLeft, DeltaDown, DeltaLeft, DeltaDown]
  {
  }

  /**
   * The arithmetic invariant of the Bresenham loop after i horizontal and j
   * vertical steps in n iterations: err is the accumulated error, the
   * dominant axis steps on every iteration, and err stays within a band
   * whose width is linear in the deltas.
   */
  ghost predicate LoopInvariant(xDelta: int, yDelta: int, i: int, j: int, n: int, err: int)
  {
    && 0 <= i <= xDelta && 0 <= j <= yDelta
    && err == xDelta * (j + 1) - yDelta * (i + 1)
    && (xDelta >= yDelta && xDelta > 0 ==>
          xDelta - 2 * yDelta <= 2 * err < 3 * xDelta - 2 * yDelta && i == n)
    && (yDelta >= xDelta && yDelta > 0 ==>
          yDelta - 2 * xDelta <= -2 * err < 3 * yDelta - 2 * xDelta && j == n)
    && (xDelta == yDelta ==> i == j)
  }

  /**
   * One iteration of the loop body: at least one step is taken, neither axis
   * is stepped past its delta, and err * 2 stays within 3 * max(xDelta, yDelta).
   */
  lemma IterationGuards(xDelta: int, yDelta: int, i: int, j: int, n: int, err: int)
    requires LoopInvariant(xDelta, yDelta, i, j, n, err)
    requires i != xDelta || j != yDelta
    ensures 2 * err > -yDelta || 2 * err < xDelta
    ensures 2 * err > -yDelta ==> i < xDelta
    ensures 2 * err < xDelta ==> j < yDelta
    ensures -3 * Max(xDelta, yDelta) <= 2 * err <= 3 * Max(xDelta, yDelta)
  {
    if i == xDelta {
      NoStepPastX(xDelta, yDelta, j, err);
    }
    if j == yDelta {
      NoStepPastY(xDelta, yDelta, i, err);
    }
  }

  /**
   * Under the invariant the loop has work left exactly while fewer than
   * max(xDelta, yDelta) iterations are done, and 2 * err stays within
   * 3 * max(xDelta, yDelta).
   */
  lemma IterationBand(xDelta: int, yDelta: int, i: int, j: int, n: int, err: int)
    requires LoopInvariant(xDelta, yDelta, i, j, n, err)
    requires 0 <= n
    ensures n < Max(xDelta, yDelta) <==> i != xDelta || j != yDelta
    ensures -3 * Max(xDelta, yDelta) <= 2 * err <= 3 * Max(xDelta, yDelta)
  {
    if xDelta >= yDelta && xDelta > 0 && i == xDelta && j < yDelta {
      NoStepPastX(xDelta, yDelta, j, err);
    }
    if yDelta >= xDelta && yDelta > 0 && j == yDelta && i < xDelta {
      NoStepPastY(xDelta, yDelta, i, err);
    }
  }

  /** After one iteration of the loop body the invariant holds again. */
  lemma IterationPreserves(xDelta: int, yDelta: int, i: int, j: int, n: int, err: int,
                           i': int, j': int, err': int)
    requires LoopInvariant(xDelta, yDelta, i, j, n, err)
    requires i != xDelta || j != yDelta
    requires i' == if 2 * err > -yDelta then i + 1 else i
    requires j' == if 2 * err < xDelta then j + 1 else j
    requires err' == err - (if 2 * err > -yDelta then yDelta else 0) + (if 2 * err < xDelta then xDelta else 0)
    ensures LoopInvariant(xDelta, yDelta, i', j', n + 1, err')
  {
    IterationGuards(xDelta, yDelta, i, j, n, err);
    assert yDelta * (i' + 1) == yDelta * (i + 1) + (if i' == i + 1 then yDelta else 0) by {
      if i' == i + 1 { MulSucc(yDelta, i + 1); }
    }
    assert xDelta * (j' + 1) == xDelta * (j + 1) + (if j' == j + 1 then xDelta else 0) by {
      if j' == j + 1 { MulSucc(xDelta, j + 1); }
    }
  }

  lemma MulSucc(a: int, b: int)
    ensures a * (b + 1) == a * b + a
  {
  }

  /** Once every horizontal step is taken, the error forbids another one. */
  lemma NoStepPastX(xDelta: int, yDelta: int, j: int, err: int)
    requires 0 <= xDelta && 0 <= j < yDelta
    requires err == xDelta * (j + 1) - yDelta * (xDelta + 1)
    ensures 2 * err <= -2 * yDelta
  {
    assert xDelta * (j + 1) <= xDelta * yDelta;
  }

  /** Once every vertical step is taken, the error forbids another one. */
  lemma NoStepPastY(xDelta: int, yDelta: int, i: int, err: int)
    requires 0 <= yDelta && 0 <= i < xDelta
    requires err == xDelta * (yDelta + 1) - yDelta * (i + 1)
    ensures 2 * err >= 2 * xDelta
  {
    assert yDelta * (i + 1) <= yDelta * xDelta;
  }
}
