/** A body of the simulation: its physical state, its pending per-tick deltas,
    its trail, and the creation counter that gives it its identity. */
module Masses {
  import opened Vectors
  import opened Trail
  import Hue

  /** The options a mass is created from. */
  datatype Config = Config(kg: real, pos: Vec2, vel: Vec2, fixedPos: bool, hasGravity: bool)

  /** The creation counter shared by all masses (the static `Mass.count`),
      passed explicitly. `issued` is the set of ids handed out so far. */
  class Counter {
    var count: nat
    ghost var issued: set<nat>

    /** Every id handed out is below the next one. */
    ghost predicate Valid()
      reads this
    {
      forall i :: i in issued ==> i < count
    }

    constructor ()
      ensures Valid() && count == 0 && issued == {}
    {
      count := 0;
      issued := {};
    }
  }

  class Mass {
    var id: nat
    var pos: Vec2
    var vel: Vec2
    var acc: Vec2
    var kg: real
    var r: real
    var fixedPos: bool
    var accAbs: real
    var deltaV: Vec2
    var deltaX: Vec2
    var history: seq<Sample>
    var hasGravity: bool
    var config: Config

    /** A new mass takes the counter's current value as its id and advances the
        counter by one, so its id differs from, and exceeds, every id issued
        before. Its radius is log2(kg / (baseKg / 2)); acceleration, deltas and
        the trail start empty. */
    constructor (counter: Counter, config: Config, baseKg: real, log2: real -> real)
      requires counter.Valid() && baseKg != 0.0
      modifies counter
      ensures counter.Valid()
      ensures id == old(counter.count) && counter.count == old(counter.count) + 1
      ensures id !in old(counter.issued) && forall j :: j in old(counter.issued) ==> j < id
      ensures counter.issued == old(counter.issued) + {id}
      ensures this.config == config
      ensures pos == config.pos && vel == config.vel && kg == config.kg
      ensures fixedPos == config.fixedPos && hasGravity == config.hasGravity
      ensures r == log2(config.kg / (baseKg / 2.0))
      ensures acc == Zero && accAbs == 0.0 && deltaV == Zero && deltaX == Zero
      ensures history == []
    {
      this.config := config;
      id := counter.count;
      pos := config.pos;
      kg := config.kg;
      vel := config.vel;
      hasGravity := config.hasGravity;
      acc := Zero;
      r := log2(config.kg / (baseKg / 2.0));
      fixedPos := config.fixedPos;
      accAbs := 0.0;
      deltaV := Zero;
      deltaX := Zero;
      history := [];
      new;
      counter.count := counter.count + 1;
      counter.issued := counter.issued + {id};
    }

    /** A new mass with the preset's mass, position, velocity and flags, under a
        new id; the preset itself is not changed. */
    static method FromPreset(counter: Counter, preset: Mass, baseKg: real, log2: real -> real) returns (m: Mass)
      requires counter.Valid() && baseKg != 0.0
      modifies counter
      ensures fresh(m) && counter.Valid()
      ensures m.id == old(counter.count) && counter.count == old(counter.count) + 1
      ensures counter.issued == old(counter.issued) + {m.id}
      ensures preset.id in old(counter.issued) ==> m.id != preset.id
      ensures m.config == Config(preset.kg, preset.pos, preset.vel, preset.fixedPos, preset.hasGravity)
      ensures m.kg == preset.kg && m.pos == preset.pos && m.vel == preset.vel
      ensures m.fixedPos == preset.fixedPos && m.hasGravity == preset.hasGravity
      ensures m.r == log2(preset.kg / (baseKg / 2.0))
      ensures m.acc == Zero && m.accAbs == 0.0 && m.deltaV == Zero && m.deltaX == Zero
      ensures m.history == []
    {
      var config := Config(
        kg := preset.kg,
        pos := Vec2(preset.pos.x, preset.pos.y),
        fixedPos := preset.fixedPos,
        hasGravity := preset.hasGravity,
        vel := Vec2(preset.vel.x, preset.vel.y));
      m := new Mass(counter, config, baseKg, log2);
    }

    /** Empties the trail and nothing else. */
    method ClearHistory()
      modifies this`history
      ensures history == []
    {
      history := [];
    }

    /** One integration step. A fixed mass is left as it is. Otherwise the
        pending deltas are added to position and velocity, wherever that takes
        the mass, and the trail is updated by `Step`: at most the oldest sample
        is evicted, and a sample of the new position is appended when it is on
        the canvas and trails are on. A trail in time order stays in time order
        when the clock has not gone back. */
    method UpdatePos(canvas: Canvas, elapsedTime: real, useHistory: bool, historyLength: real)
      modifies this`pos, this`vel, this`history
      ensures old(fixedPos) ==> pos == old(pos) && vel == old(vel) && history == old(history)
      ensures !old(fixedPos) ==> pos == Add(old(pos), old(deltaX)) && vel == Add(old(vel), old(deltaV))
      ensures !old(fixedPos) ==>
        history == Step(old(history), Tick(elapsedTime, historyLength, canvas, useHistory, pos))
      ensures Chronological(old(history)) && NotBefore(old(history), elapsedTime) ==>
        Chronological(history) && NotBefore(history, elapsedTime)
    {
      if fixedPos {
        return;
      }
      if Chronological(history) && NotBefore(history, elapsedTime) {
        StepChronological(history, Tick(elapsedTime, historyLength, canvas, useHistory, Add(pos, deltaX)));
      }
      pos := Add(pos, deltaX);
      vel := Add(vel, deltaV);

      if |history| > 1 {
        var firstTime := history[0].time;
        if elapsedTime - firstTime > historyLength {
          history := history[1..];
        }
      }

      if pos.x < 0.0 || pos.x > canvas.width || pos.y < 0.0 || pos.y > canvas.height {
        return;
      }

      if !useHistory {
        return;
      }

      history := history + [Sample(elapsedTime, pos.x, pos.y)];
    }

    /** The fill style `draw` selects, with `log2` standing for `Math.log2`. */
    function DrawColour(mode: string, accelMin: real, accelMax: real, log2: real -> real): (f: Hue.Fill)
      reads this
      ensures f.White? <==> mode != "size" && mode != "acceleration"
      ensures mode == "size" ==> f == Hue.Hsl(Hue.SizeHue(r)) && 0 <= f.hue <= 330
      ensures mode == "acceleration" && fixedPos ==> f == Hue.Hsl(0)
      ensures mode == "acceleration" && log2(accelMin) == log2(accelMax) ==> f == Hue.Hsl(0)
      ensures mode == "acceleration" ==>
        f == Hue.Hsl(Hue.AccelerationHue(fixedPos, log2(accAbs), log2(accelMin), log2(accelMax)))
    {
      Hue.Colour(mode, r, fixedPos, log2(accAbs), log2(accelMin), log2(accelMax))
    }
  }
}
