/** The trail buffer of a mass: a queue of timestamped positions that one
    update may shorten by its oldest sample and lengthen by a new one. */
module Trail {
  import opened Vectors

  /** One trail entry `[time, x, y]`. */
  datatype Sample = Sample(time: real, x: real, y: real)

  /** The drawing surface, reduced to its size. */
  datatype Canvas = Canvas(width: real, height: real)

  /** What one position update sees: the clock, the history window, the
      canvas, whether trails are on, and the position the mass has just reached. */
  datatype Tick = Tick(elapsed: real, window: real, canvas: Canvas, useHistory: bool, pos: Vec2)

  /** The oldest sample is due for eviction: there are at least two samples
      and the first one is older than the window. */
  predicate FirstStale(h: seq<Sample>, elapsed: real, window: real)
  {
    |h| > 1 && elapsed - h[0].time > window
  }

  /** The position is not off screen; the edges count as on screen. */
  predicate OnCanvas(p: Vec2, c: Canvas)
  {
    !(p.x < 0.0 || p.x > c.width || p.y < 0.0 || p.y > c.height)
  }

  /** The update appends a sample. */
  predicate Records(t: Tick)
  {
    OnCanvas(t.pos, t.canvas) && t.useHistory
  }

  /** The sample an update appends. */
  function SampleOf(t: Tick): Sample
  {
    Sample(t.elapsed, t.pos.x, t.pos.y)
  }

  /** The trail after one update of a mass that is not fixed: first the
      staleness check, then the screen and trail-switch checks. */
  function Step(h: seq<Sample>, t: Tick): (r: seq<Sample>)
    ensures |h| - 1 <= |r| <= |h| + 1
    ensures h != [] ==> r != []
    ensures Records(t) ==> r != [] && r[|r| - 1] == SampleOf(t)
  {
    var kept := if FirstStale(h, t.elapsed, t.window) then h[1..] else h;
    if Records(t) then kept + [SampleOf(t)] else kept
  }

  /** The new trail is a suffix of the old one that drops at most its first
      sample, followed by at most one new sample. */
  lemma StepShape(h: seq<Sample>, t: Tick)
    ensures exists k: nat, extra: seq<Sample> ::
      k <= 1 && k <= |h| && |extra| <= 1 && Step(h, t) == h[k..] + extra
  {
    var k: nat := if FirstStale(h, t.elapsed, t.window) then 1 else 0;
    var extra := if Records(t) then [SampleOf(t)] else [];
    assert Step(h, t) == h[k..] + extra;
  }

  /** Eviction: the first sample goes exactly when there are at least two and
      it is stale; whether the mass is on screen or trails are on plays no part.
      Every other sample is kept, in order. */
  lemma StepEviction(h: seq<Sample>, t: Tick)
    ensures FirstStale(h, t.elapsed, t.window) ==> Step(h, t)[..|h| - 1] == h[1..]
    ensures !FirstStale(h, t.elapsed, t.window) ==> Step(h, t)[..|h|] == h
  {
  }

  /** Appending: the trail gains a sample exactly when the new position lies in
      [0, width] x [0, height] and trails are on, and that sample is the current
      time with the new position. */
  lemma StepAppend(h: seq<Sample>, t: Tick)
    ensures var kept := |h| - (if FirstStale(h, t.elapsed, t.window) then 1 else 0);
      (|Step(h, t)| == kept + 1 <==>
        0.0 <= t.pos.x <= t.canvas.width && 0.0 <= t.pos.y <= t.canvas.height && t.useHistory)
      && (|Step(h, t)| == kept + 1 ==> Step(h, t)[kept] == Sample(t.elapsed, t.pos.x, t.pos.y))
      && (|Step(h, t)| != kept + 1 ==> |Step(h, t)| == kept)
  {
  }

  /** Sample times never decrease along the trail. */
  ghost predicate Chronological(h: seq<Sample>)
  {
    forall i, j :: 0 <= i < j < |h| ==> h[i].time <= h[j].time
  }

  /** The clock has not gone back behind the newest sample. */
  predicate NotBefore(h: seq<Sample>, elapsed: real)
  {
    h == [] || h[|h| - 1].time <= elapsed
  }

  /** An update at a time no earlier than the newest sample keeps the trail in
      time order, and the newest sample is then no later than that time. */
  lemma StepChronological(h: seq<Sample>, t: Tick)
    requires Chronological(h) && NotBefore(h, t.elapsed)
    ensures Chronological(Step(h, t)) && NotBefore(Step(h, t), t.elapsed)
  {
  }

  /** The trail after a sequence of updates, each applied to the result of the one before. */
  function Run(h: seq<Sample>, ticks: seq<Tick>): seq<Sample>
    decreases |ticks|
  {
    if ticks == [] then h else Run(Step(h, ticks[0]), ticks[1..])
  }

  /** Over n updates the trail shrinks by at most n and grows by at most n. */
  lemma {:induction false} RunLength(h: seq<Sample>, ticks: seq<Tick>)
    ensures |h| - |ticks| <= |Run(h, ticks)| <= |h| + |ticks|
    decreases |ticks|
  {
    if ticks != [] {
      RunLength(Step(h, ticks[0]), ticks[1..]);
    }
  }

  /** Updates alone never empty a trail that holds a sample. */
  lemma {:induction false} RunNonEmpty(h: seq<Sample>, ticks: seq<Tick>)
    requires h != []
    ensures Run(h, ticks) != []
    decreases |ticks|
  {
    if ticks != [] {
      RunNonEmpty(Step(h, ticks[0]), ticks[1..]);
    }
  }

  /** The clock times of a sequence of updates never decrease, starting from `from`. */
  predicate ClockFrom(from: real, ticks: seq<Tick>)
  {
    (ticks != [] ==> from <= ticks[0].elapsed) &&
    forall i :: 0 < i < |ticks| ==> ticks[i - 1].elapsed <= ticks[i].elapsed
  }

  /** Updates driven by a clock that never runs backwards keep the trail in time order. */
  lemma {:induction false} RunChronological(h: seq<Sample>, ticks: seq<Tick>, from: real)
    requires Chronological(h) && NotBefore(h, from) && ClockFrom(from, ticks)
    ensures Chronological(Run(h, ticks))
    decreases |ticks|
  {
    if ticks != [] {
      StepChronological(h, ticks[0]);
      assert ClockFrom(ticks[0].elapsed, ticks[1..]) by {
        if |ticks| > 1 {
          assert ticks[0].elapsed <= ticks[1].elapsed;
        }
        forall i | 0 < i < |ticks[1..]|
          ensures ticks[1..][i - 1].elapsed <= ticks[1..][i].elapsed
        {
          assert ticks[i].elapsed <= ticks[i + 1].elapsed;
        }
      }
      RunChronological(Step(h, ticks[0]), ticks[1..], ticks[0].elapsed);
    }
  }

  /** Catch-up is one sample per update: when every sample but the newest is
      stale for every update and nothing is recorded, n updates with n below the
      trail's length remove exactly the n oldest samples. */
  lemma {:induction false} RunCatchUp(h: seq<Sample>, ticks: seq<Tick>)
    requires |ticks| < |h|
    requires forall i :: 0 <= i < |ticks| ==> !Records(ticks[i])
    requires forall i, j :: 0 <= i < |h| - 1 && 0 <= j < |ticks| ==>
      ticks[j].elapsed - h[i].time > ticks[j].window
    ensures Run(h, ticks) == h[|ticks|..]
    decreases |ticks|
  {
    if ticks != [] {
      assert FirstStale(h, ticks[0].elapsed, ticks[0].window) by {
        assert ticks[0].elapsed - h[0].time > ticks[0].window;
      }
      assert Step(h, ticks[0]) == h[1..];
      forall i, j | 0 <= i < |h[1..]| - 1 && 0 <= j < |ticks[1..]|
        ensures ticks[1..][j].elapsed - h[1..][i].time > ticks[1..][j].window
      {
        assert ticks[j + 1].elapsed - h[i + 1].time > ticks[j + 1].window;
      }
      RunCatchUp(h[1..], ticks[1..]);
      assert h[1..][|ticks| - 1..] == h[|ticks|..];
    }
  }
}
