/**
 * The BOOT-button long press that erases the configuration. `check_reset_button` is
 * called over and over by a background task; between calls it remembers in a module
 * global the tick at which the current press was first seen (0 meaning "no press").
 * The pin level and the clock are inputs of each call; the OLED message, the LED colour,
 * the removal of the configuration file and the restart are its effect.
 */
module Hardware {

  /** `time.ticks_ms` counts modulo 2^30 on this port. */
  const TICKS_PERIOD: int := 0x4000_0000
  const TICKS_HALF: int := 0x2000_0000

  /** How long, in milliseconds, the button has to be held before the reset fires. */
  const HOLD_MS: int := 10000

  /** `time.ticks_diff(a, b)`: the signed distance from `b` to `a` on the tick circle. */
  function TicksDiff(a: int, b: int): (d: int)
    ensures -TICKS_HALF <= d < TICKS_HALF
    ensures (d - (a - b)) % TICKS_PERIOD == 0
  {
    (a - b + TICKS_HALF) % TICKS_PERIOD - TICKS_HALF
  }

  /** Across a wrap of the counter, `ticks_diff` still gives the elapsed time when it is below half a period. */
  lemma {:induction false} TicksDiffElapsed(start: int, d: int)
    requires 0 <= start < TICKS_PERIOD && 0 <= d < TICKS_HALF
    ensures TicksDiff((start + d) % TICKS_PERIOD, start) == d
  {
    if start + d < TICKS_PERIOD {
      assert (start + d) % TICKS_PERIOD == start + d;
      assert (d + TICKS_HALF) % TICKS_PERIOD == d + TICKS_HALF;
    } else {
      assert (start + d) % TICKS_PERIOD == start + d - TICKS_PERIOD;
      assert (d - TICKS_HALF) % TICKS_PERIOD == d + TICKS_HALF;
    }
  }

  /** What `_button_pin` holds: nothing before `init_reset_button`, "failed" after a failed set-up, or the pin. */
  datatype ButtonPin = Unset | Failed | Ready

  /** What one call does besides updating the press start. */
  datatype Effect =
    | Idle
      /** The "hold to reset" message on the OLED. */
    | HoldPrompt
      /** Message, purple LED, removal of the configuration file (when there is one) and restart. */
    | FactoryReset(removedConfig: bool)

  datatype StepResult = StepResult(pressStart: int, effect: Effect)

  /**
   * One call of `check_reset_button`: `level` is what the pin reads (0 while pressed,
   * the pin being pulled up), `now` the tick count, `configExists` whether the
   * configuration file is there to be removed.
   */
  function Step(pin: ButtonPin, pressStart: int, level: int, now: int, configExists: bool): (r: StepResult)
    // without a working pin the call does nothing at all
    ensures !pin.Ready? ==> r == StepResult(pressStart, Idle)
    // a released button forgets the press
    ensures pin.Ready? && level != 0 ==> r == StepResult(0, Idle)
    // the first pressed call records the tick and prompts
    ensures r.effect.HoldPrompt? <==> pin.Ready? && level == 0 && pressStart == 0
    ensures r.effect.HoldPrompt? ==> r.pressStart == now
    // the reset fires exactly when a recorded press is more than HOLD_MS old
    ensures r.effect.FactoryReset? <==> pin.Ready? && level == 0 && pressStart != 0 && TicksDiff(now, pressStart) > HOLD_MS
    ensures r.effect.FactoryReset? ==> r.effect.removedConfig == configExists
    // while pressed, a recorded start is never moved
    ensures level == 0 && pressStart != 0 ==> r.pressStart == pressStart
  {
    if !pin.Ready? then StepResult(pressStart, Idle)
    else if level == 0 then
      if pressStart == 0 then StepResult(now, HoldPrompt)
      else if TicksDiff(now, pressStart) > HOLD_MS then StepResult(pressStart, FactoryReset(configExists))
      else StepResult(pressStart, Idle)
    else StepResult(0, Idle)
  }

  /** A press first seen at tick 0 records 0, which reads as "no press": the next call prompts again. */
  lemma {:induction false} PressAtTickZero(configExists: bool)
    ensures Step(Ready, 0, 0, 0, configExists) == StepResult(0, HoldPrompt)
    ensures Step(Ready, 0, 0, 1, configExists) == StepResult(1, HoldPrompt)
  {
  }

  /** One pin reading and clock value, as seen by one call. */
  datatype Sample = Sample(level: int, now: int)

  /** The press start after calls on `samples`, from the initial 0, and the effect of each call. */
  function Run(pin: ButtonPin, samples: seq<Sample>, configExists: bool): (r: (int, seq<Effect>))
    ensures |r.1| == |samples|
    // without a working pin no call does anything
    ensures !pin.Ready? ==> r.0 == 0 && forall k :: 0 <= k < |r.1| ==> r.1[k] == Idle
    // a prompt or a reset only ever comes from a call that reads the button pressed
    ensures forall k :: 0 <= k < |r.1| && !r.1[k].Idle? ==> samples[k].level == 0
    // a reading of the released button leaves no press recorded
    ensures samples != [] && samples[|samples| - 1].level != 0 ==> r.0 == 0
    decreases |samples|
  {
    if samples == [] then (0, [])
    else
      var prev := Run(pin, samples[..|samples| - 1], configExists);
      var last := samples[|samples| - 1];
      var s := Step(pin, prev.0, last.level, last.now, configExists);
      (s.pressStart, prev.1 + [s.effect])
  }

  /** The button reads pressed in every sample from `j` on. */
  predicate HeldFrom(samples: seq<Sample>, j: int) {
    forall k :: 0 <= j <= k < |samples| ==> samples[k].level == 0
  }

  /** A recorded press start is the tick of a sample from which the button has been held ever since. */
  lemma {:induction false} RunStartIsHeld(pin: ButtonPin, samples: seq<Sample>, configExists: bool)
    ensures !pin.Ready? ==> Run(pin, samples, configExists).0 == 0
    ensures var start := Run(pin, samples, configExists).0;
      start != 0 ==> exists j :: 0 <= j < |samples| && samples[j].now == start && HeldFrom(samples, j)
  {
    if samples != [] {
      var init := samples[..|samples| - 1];
      var last := samples[|samples| - 1];
      var prev := Run(pin, init, configExists).0;
      RunStartIsHeld(pin, init, configExists);
      var start := Run(pin, samples, configExists).0;
      if start != 0 {
        if pin.Ready? && last.level == 0 && prev == 0 {
          assert samples[|samples| - 1].now == start && HeldFrom(samples, |samples| - 1);
        } else {
          var j :| 0 <= j < |init| && init[j].now == prev && HeldFrom(init, j);
          assert samples[j].now == start && HeldFrom(samples, j);
        }
      }
    }
  }

  /**
   * When a call resets the device, the button was pressed at an earlier call whose tick is
   * not 0, has read pressed at every call since, and the reset call is more than HOLD_MS
   * after it.
   */
  lemma {:induction false} ResetNeedsLongHold(pin: ButtonPin, samples: seq<Sample>, configExists: bool)
    requires |samples| > 0 && Run(pin, samples, configExists).1[|samples| - 1].FactoryReset?
    ensures exists j :: 0 <= j < |samples| - 1 && samples[j].now != 0 && HeldFrom(samples, j) &&
                        TicksDiff(samples[|samples| - 1].now, samples[j].now) > HOLD_MS
  {
    var init := samples[..|samples| - 1];
    var last := samples[|samples| - 1];
    var prev := Run(pin, init, configExists).0;
    assert Run(pin, samples, configExists).1[|samples| - 1] == Step(pin, prev, last.level, last.now, configExists).effect;
    RunStartIsHeld(pin, init, configExists);
    var j :| 0 <= j < |init| && init[j].now == prev && HeldFrom(init, j);
    assert samples[j].now != 0 && HeldFrom(samples, j);
  }

  /** The module state of `esp32/hardware.py` that the reset button uses. */
  class ResetButton {
    var pin: ButtonPin
    var pressStartMs: int

    /** Press starts are tick values. */
    ghost predicate Valid()
      reads this
    {
      0 <= pressStartMs < TICKS_PERIOD
    }

    /** The module globals at import time. */
    constructor ()
      ensures pin == Unset && pressStartMs == 0 && Valid()
    {
      pin := Unset;
      pressStartMs := 0;
    }

    /** `init_reset_button`: `ok` says whether the pin could be set up. */
    method InitResetButton(ok: bool)
      modifies this
      ensures pin == (if ok then Ready else Failed)
      ensures pressStartMs == old(pressStartMs)
    {
      if ok {
        pin := Ready;
      } else {
        pin := Failed;
      }
    }

    /** `check_reset_button`, with the pin reading, the tick count and the file's presence as inputs. */
    method CheckResetButton(level: int, now: int, configExists: bool) returns (effect: Effect)
      requires Valid() && 0 <= now < TICKS_PERIOD
      modifies this
      ensures Valid() && pin == old(pin)
      ensures StepResult(pressStartMs, effect) == Step(old(pin), old(pressStartMs), level, now, configExists)
    {
      effect := Idle;
      if !pin.Ready? {
        return;
      }
      if level == 0 {
        if pressStartMs == 0 {
          pressStartMs := now;
          effect := HoldPrompt;
        } else if TicksDiff(now, pressStartMs) > HOLD_MS {
          effect := FactoryReset(configExists);
        }
      } else {
        pressStartMs := 0;
      }
    }
  }
}
