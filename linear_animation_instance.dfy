/**
 * The inline part of rive's LinearAnimationInstance
 * (include/rive/animation/linear_animation_instance.hpp): the playback
 * fields, the direction setter that normalises to +1 or -1, the spilled-time
 * reset, the loop-mode view and the `keepGoing` test. `loopValue()` and the
 * animation's `durationSeconds()` are defined elsewhere, so they enter as
 * fixed inputs of the instance.
 */
module LinearAnimation {

  /** The numeric value of `rive::Loop` as `(Loop)loopValue()` reinterprets it. */
  newtype Loop = int

  /** `rive::Loop::oneShot`. */
  const OneShot: Loop := 0

  /** +1 for a positive request, -1 for anything else, zero included. */
  function DirectionFor(requested: int): (d: real)
    ensures d == 1.0 || d == -1.0
    ensures d > 0.0 <==> requested > 0
  {
    if requested > 0 then 1.0 else -1.0
  }

  /** The instance's own fields, as the getters return them. */
  datatype Playback = Playback(
    time: real,
    totalTime: real,
    lastTotalTime: real,
    spilledTime: real,
    direction: real,
    didLoop: bool)

  class LinearAnimationInstance {
    var time: real
    var totalTime: real
    var lastTotalTime: real
    var spilledTime: real
    /** A float because it is multiplied with other floats. */
    var direction: real
    var didLoop: bool
    /** What `loopValue()` returns. */
    const loopValue: int
    /** What the animation's `durationSeconds()` returns. */
    const animationDuration: real

    /** The constructor is defined outside the header: it takes the state it produces. */
    constructor (loopValue: int, animationDuration: real, start: Playback)
      ensures this.loopValue == loopValue && this.animationDuration == animationDuration
      ensures Fields() == start
    {
      this.loopValue := loopValue;
      this.animationDuration := animationDuration;
      time, totalTime, lastTotalTime := start.time, start.totalTime, start.lastTotalTime;
      spilledTime, direction, didLoop := start.spilledTime, start.direction, start.didLoop;
    }

    function Time(): real reads this { time }
    function TotalTime(): real reads this { totalTime }
    function LastTotalTime(): real reads this { lastTotalTime }
    function SpilledTime(): real reads this { spilledTime }
    function Direction(): real reads this { direction }
    function DidLoop(): bool reads this { didLoop }

    /** All the getters at once. */
    function Fields(): Playback
      reads this
    {
      Playback(Time(), TotalTime(), LastTotalTime(), SpilledTime(), Direction(), DidLoop())
    }

    /** `loop()`: the loop value reinterpreted as a `Loop`. */
    function LoopMode(): (l: Loop)
      reads this
      ensures l as int == loopValue
      ensures l == OneShot <==> loopValue == OneShot as int
    {
      loopValue as Loop
    }

    /**
     * `keepGoing()`: every mode but oneShot keeps going; oneShot keeps going
     * while forwards short of the animation's end or backwards past its start,
     * so it stops once it has reached the end it is heading for.
     */
    predicate KeepGoing(): (b: bool)
      reads this
      ensures LoopMode() == OneShot && direction > 0.0 && time >= animationDuration ==> !b
      ensures LoopMode() == OneShot && direction < 0.0 && time <= 0.0 ==> !b
    {
      loopValue != OneShot as int ||
      (direction > 0.0 && time < animationDuration) ||
      (direction < 0.0 && time > 0.0)
    }

    /** `direction(int)`: only the direction changes, and it becomes +1 or -1. */
    method SetDirection(requested: int)
      modifies this
      ensures Fields() == old(Fields()).(direction := DirectionFor(requested))
      ensures Direction() == 1.0 || Direction() == -1.0
    {
      if requested > 0 {
        direction := 1.0;
      } else {
        direction := -1.0;
      }
    }

    /** `clearSpilledTime()`: only the spilled time changes, to zero. */
    method ClearSpilledTime()
      modifies this
      ensures Fields() == old(Fields()).(spilledTime := 0.0)
      ensures SpilledTime() == 0.0
    {
      spilledTime := 0.0;
    }
  }

  /** Only a oneShot instance can stop. */
  lemma KeepGoingUnlessOneShot(a: LinearAnimationInstance)
    requires a.LoopMode() != OneShot
    ensures a.KeepGoing()
  {
  }

  /**
   * With a direction the setter produced, a oneShot instance keeps going
   * exactly while forwards before the end or backwards after the start.
   */
  lemma OneShotKeepGoing(a: LinearAnimationInstance, requested: int)
    requires a.LoopMode() == OneShot && a.direction == DirectionFor(requested)
    ensures a.KeepGoing() <==>
      (requested > 0 && a.time < a.animationDuration) || (requested <= 0 && a.time > 0.0)
  {
  }

  /** A oneShot instance whose direction is neither sign never keeps going. */
  lemma OneShotWithoutDirectionStops(a: LinearAnimationInstance)
    requires a.LoopMode() == OneShot && a.direction == 0.0
    ensures !a.KeepGoing()
  {
  }
}
