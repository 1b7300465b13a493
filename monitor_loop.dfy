/** The main loop's state across ticks: the visibility counter `limit`
    and the publish deadline `next_interval`, with the per-tick update the
    loop body applies to them. */
module MonitorLoop {
  import opened Wrappers
  import Decimal
  import Calendar
  import AirQuality
  import Telemetry

  /** The loop's fixed settings `limit_low`, `limit_visible` and
      `write_interval` (in the unit of the monotonic clock). */
  datatype Config = Config(limitLow: int, limitVisible: int, writeInterval: int) {

    /** `limit_max = limit_low + limit_visible`: the length of one cycle. */
    function LimitMax(): int {
      limitLow + limitVisible
    }

    /** At least one visible tick and no negative number of blank ones. */
    predicate WellFormed() {
      limitLow >= 0 && limitVisible >= 1
    }
  }

  /** The program's own settings: three visible ticks, one blank tick, and
      a publish every 30 * 60 seconds. */
  const PROGRAM_CONFIG := Config(1, 3, 30 * 60)

  /** What the loop carries from one tick to the next. Monotonic time is a
      float in the program; only its order matters here, so it is an int. */
  datatype State = State(limit: int, nextInterval: int)

  /** Before the first tick: the counter at `limit_max` and the deadline
      one `write_interval` after the first monotonic read `start`. */
  function Initial(c: Config, start: int): (s: State)
    ensures LimitInRange(c, s.limit)
    ensures c.WellFormed() ==> IsVisible(c, s)
    ensures IsDue(s, start) <==> c.writeInterval <= 0
  {
    State(c.LimitMax(), start + c.writeInterval)
  }

  /** The values the counter can hold when a tick reads it: 1..limit_max;
      a configuration with no positive `limit_max` pins it at `limit_max`. */
  predicate LimitInRange(c: Config, limit: int)
  {
    if c.LimitMax() >= 1 then 1 <= limit <= c.LimitMax() else limit == c.LimitMax()
  }

  /** `print_stats`: the display shows data exactly when the counter is
      above `limit_low`. */
  predicate IsVisible(c: Config, s: State)
    ensures LimitInRange(c, s.limit) && c.WellFormed() ==>
      (IsVisible(c, s) <==> c.LimitMax() - s.limit < c.limitVisible)
  {
    s.limit > c.limitLow
  }

  /** A publish is due once monotonic time has reached the deadline. */
  predicate IsDue(s: State, monoTime: int)
  {
    monoTime >= s.nextInterval
  }

  /** The end-of-tick counter update: decrement, and reset to `limit_max`
      in the same tick when the counter is no longer positive. */
  function NextLimit(c: Config, limit: int): (next: int)
    ensures LimitInRange(c, limit) ==> LimitInRange(c, next)
    ensures next == limit - 1 || next == c.LimitMax()
    ensures next >= 1 || next == c.LimitMax()
  {
    if limit - 1 <= 0 then c.LimitMax() else limit - 1
  }

  /** One tick's effect on the state. `rearmTime` is the second monotonic
      read taken after a publish, from which the deadline is re-armed. */
  function Step(c: Config, s: State, monoTime: int, rearmTime: int): (s': State)
    ensures LimitInRange(c, s.limit) ==> LimitInRange(c, s'.limit)
    ensures !IsDue(s, monoTime) ==> s'.nextInterval == s.nextInterval
    ensures IsDue(s, monoTime) && rearmTime >= monoTime ==>
      s'.nextInterval >= monoTime + c.writeInterval && s'.nextInterval >= s.nextInterval + c.writeInterval
  {
    State(
      NextLimit(c, s.limit),
      if IsDue(s, monoTime) then rearmTime + c.writeInterval else s.nextInterval)
  }

  /** Everything one tick reads from the outside world: the monotonic time
      at the top of the loop, the second monotonic read used only when a
      publish fires, the local calendar time and the sensor readings. */
  datatype TickInput = TickInput(
    monoTime: int,
    rearmTime: int,
    time: Calendar.StructTime,
    reading: Telemetry.Reading)

  /** The state before tick `k` when the loop starts in `s0`. */
  function StateAt(c: Config, s0: State, ins: seq<TickInput>, k: nat): State
    requires k <= |ins|
  {
    if k == 0 then s0
    else Step(c, StateAt(c, s0, ins, k - 1), ins[k - 1].monoTime, ins[k - 1].rearmTime)
  }

  /** Whether each of the first `n` ticks shows data. */
  function VisibleTrace(c: Config, s0: State, ins: seq<TickInput>, n: nat): (v: seq<bool>)
    requires n <= |ins|
    ensures |v| == n
  {
    if n == 0 then [] else VisibleTrace(c, s0, ins, n - 1) + [IsVisible(c, StateAt(c, s0, ins, n - 1))]
  }

  /** Whether each of the first `n` ticks publishes. */
  function PublishTrace(c: Config, s0: State, ins: seq<TickInput>, n: nat): (p: seq<bool>)
    requires n <= |ins|
    ensures |p| == n
  {
    if n == 0 then []
    else PublishTrace(c, s0, ins, n - 1) + [IsDue(StateAt(c, s0, ins, n - 1), ins[n - 1].monoTime)]
  }

  /** Entry `k` of either trace is the decision taken from the state before
      tick `k`, however long the trace runs past it. */
  lemma {:induction false} TracesAt(c: Config, s0: State, ins: seq<TickInput>, n: nat, k: nat)
    requires k < n <= |ins|
    ensures VisibleTrace(c, s0, ins, n)[k] == IsVisible(c, StateAt(c, s0, ins, k))
    ensures PublishTrace(c, s0, ins, n)[k] == IsDue(StateAt(c, s0, ins, k), ins[k].monoTime)
    decreases n
  {
    if k < n - 1 {
      TracesAt(c, s0, ins, n - 1, k);
    }
  }

  /** The loop's state, updated in place as the program does. */
  class Monitor {
    const config: Config
    var limit: int
    var nextInterval: int

    function Snapshot(): State
      reads this
    {
      State(limit, nextInterval)
    }

    ghost predicate Valid()
      reads this
    {
      LimitInRange(config, limit)
    }

    /** The set-up just before `while True`: `limit = limit_max` and the
        first deadline one interval after the monotonic time `start`. */
    constructor (config: Config, start: int)
      ensures this.config == config
      ensures Snapshot() == Initial(config, start)
      ensures Valid()
    {
      this.config := config;
      limit := config.LimitMax();
      nextInterval := start + config.writeInterval;
    }

    /** One pass of the loop body. Returns whether the frame shows data, the
        text drawn on the display, and the payload when a publish fires. The
        clock block is formatted on every tick, so its day and month lookups
        must stay within Python's index range. */
    method Tick(monoTime: int, rearmTime: int, t: Calendar.StructTime, r: Telemetry.Reading)
      returns (visible: bool, shown: string, payload: Option<string>)
      requires Valid()
      requires Calendar.Formattable(t)
      modifies this
      ensures Valid()
      ensures Snapshot() == Step(config, old(Snapshot()), monoTime, rearmTime)
      ensures visible == IsVisible(config, old(Snapshot()))
      ensures shown == if visible then Decimal.IntToString(r.vocIndex) else ""
      ensures payload.Some? == IsDue(old(Snapshot()), monoTime)
      ensures payload.Some? ==> payload.value == Telemetry.PublishPayload(Calendar.ClockBlock(t).value, r)
    {
      var clockBlock := Calendar.ClockBlock(t).value;

      visible := true;
      if limit <= config.limitLow {
        visible := false;
      }
      if visible {
        shown := Decimal.IntToString(r.vocIndex);
      } else {
        shown := "";
      }

      payload := None;
      if monoTime >= nextInterval {
        var quality := AirQuality.ChainLabel(r.vocIndex);
        var status := Telemetry.StatusMsg(clockBlock, quality, r.vocIndex);
        payload := Some(Telemetry.Payload(r, status));
        nextInterval := rearmTime + config.writeInterval;
      }

      limit := limit - 1;
      if limit <= 0 {
        limit := config.LimitMax();
      }
    }

    /** The `while True` loop run for `|ins|` ticks: the state it ends in is
        the trace's, and tick `k` shows data and publishes exactly as the
        trace state before tick `k` says. */
    method Run(ins: seq<TickInput>) returns (visible: seq<bool>, published: seq<bool>)
      requires Valid()
      requires forall k :: 0 <= k < |ins| ==> Calendar.Formattable(ins[k].time)
      modifies this
      ensures Valid()
      ensures Snapshot() == StateAt(config, old(Snapshot()), ins, |ins|)
      ensures visible == VisibleTrace(config, old(Snapshot()), ins, |ins|)
      ensures published == PublishTrace(config, old(Snapshot()), ins, |ins|)
    {
      ghost var s0 := Snapshot();
      visible, published := [], [];
      var i := 0;
      while i < |ins|
        invariant 0 <= i <= |ins|
        invariant Valid()
        invariant Snapshot() == StateAt(config, s0, ins, i)
        invariant visible == VisibleTrace(config, s0, ins, i)
        invariant published == PublishTrace(config, s0, ins, i)
      {
        var v, _, payload := Tick(ins[i].monoTime, ins[i].rearmTime, ins[i].time, ins[i].reading);
        visible := visible + [v];
        published := published + [payload.Some?];
        i := i + 1;
      }
    }
  }
}
