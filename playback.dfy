/** The playback controller shared by the three visualizers: a cursor into a
    generated trace, a playing flag and a speed multiplier, driven by the
    transport handlers and by the auto-advance effect. Each visualizer holds
    this state in `currentStep`, `isPlaying` and `speed`. */
module Playback {

  class Player<S> {
    /** The generated trace (`steps`); it is set once and never changed. */
    const steps: seq<S>
    /** `currentStep`: index of the step on screen. */
    var cursor: int
    /** `isPlaying`. */
    var running: bool
    /** `speed`: the multiplier of the auto-advance rate. */
    var speed: real

    /** The trace is non-empty and the cursor points into it. */
    ghost predicate Valid()
      reads this
    {
      |steps| >= 1 && 0 <= cursor < |steps|
    }

    /** Index of the last step. */
    function Last(): (k: nat)
      requires |steps| >= 1
      ensures k < |steps| && k + 1 == |steps|
    {
      |steps| - 1
    }

    /** The step on screen (`steps[currentStep]`). */
    function Current(): (s: S)
      reads this
      requires Valid()
      ensures s in steps
    {
      steps[cursor]
    }

    /** A freshly mounted view: cursor at 0, not playing, speed 1. */
    constructor (trace: seq<S>)
      requires |trace| >= 1
      ensures Valid()
      ensures steps == trace && cursor == 0 && !running && speed == 1.0
    {
      steps := trace;
      cursor := 0;
      running := false;
      speed := 1.0;
    }

    /** `handlePlay`: only raises the flag; the cursor moves on later ticks. */
    method Play()
      requires Valid()
      modifies this
      ensures Valid()
      ensures running && cursor == old(cursor) && speed == old(speed)
    {
      running := true;
    }

    /** `handlePause`: lowers the flag and touches nothing else, so a second
        call leaves the state as the first one left it. */
    method Pause()
      requires Valid()
      modifies this
      ensures Valid()
      ensures !running && cursor == old(cursor) && speed == old(speed)
    {
      running := false;
    }

    /** `handleNext`: one step forward, clamped at the last step; the playing
        flag is left as it was. */
    method Next()
      requires Valid()
      modifies this
      ensures Valid()
      ensures cursor == if old(cursor) + 1 <= Last() then old(cursor) + 1 else Last()
      ensures old(cursor) == Last() ==> cursor == old(cursor)
      ensures running == old(running) && speed == old(speed)
    {
      cursor := if cursor + 1 <= |steps| - 1 then cursor + 1 else |steps| - 1;
    }

    /** `handlePrevious`: one step back, clamped at 0; the playing flag is
        left as it was. */
    method Previous()
      requires Valid()
      modifies this
      ensures Valid()
      ensures cursor == if old(cursor) - 1 >= 0 then old(cursor) - 1 else 0
      ensures old(cursor) == 0 ==> cursor == 0
      ensures running == old(running) && speed == old(speed)
    {
      cursor := if cursor - 1 >= 0 then cursor - 1 else 0;
    }

    /** `handleReset`: back to the first step and stopped; speed is kept. */
    method Reset()
      requires Valid()
      modifies this
      ensures Valid()
      ensures cursor == 0 && !running && speed == old(speed)
    {
      cursor := 0;
      running := false;
    }

    /** The speed slider's `onSpeedChange`: the value is stored as given (the
        range [0.5, 2] is enforced by the slider widget, not here). */
    method SetSpeed(value: real)
      requires Valid()
      modifies this
      ensures Valid()
      ensures speed == value && cursor == old(cursor) && running == old(running)
    {
      speed := value;
    }

    /** One firing of the auto-advance effect. While playing with steps left,
        its timer moves the cursor by exactly one; once the cursor is at (or
        past) the last step the effect forces playing off; otherwise (paused
        before the end) nothing happens. */
    method Tick()
      requires Valid()
      modifies this
      ensures Valid()
      ensures old(running) && old(cursor) < Last() ==> cursor == old(cursor) + 1 && running
      ensures old(cursor) >= Last() ==> cursor == old(cursor) && !running
      ensures !old(running) && old(cursor) < Last() ==> cursor == old(cursor) && !running
      ensures speed == old(speed)
    {
      if running && cursor < |steps| - 1 {
        cursor := cursor + 1;
      } else if cursor >= |steps| - 1 {
        running := false;
      }
    }

    /** Pressing play on the last step: the next firing of the effect finds
        nothing left to show and turns playing off again, leaving the cursor
        where it was. */
    method PlayAtEnd()
      requires Valid() && cursor == Last()
      modifies this
      ensures Valid()
      ensures !running && cursor == old(cursor) && speed == old(speed)
    {
      Play();
      Tick();
    }
  }
}
