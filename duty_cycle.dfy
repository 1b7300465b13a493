/** The display's visibility duty cycle: what the counter `limit` does
    over many ticks, and how many ticks of each cycle show data. */
module DutyCycle {
  import opened MonitorLoop

  /** The counter before tick `k`, counting from `limit = limit_max`. */
  function LimitAt(c: Config, k: nat): int
  {
    if k == 0 then c.LimitMax() else NextLimit(c, LimitAt(c, k - 1))
  }

  /** The counter in any run of the loop follows `LimitAt`: it depends on
      the tick number alone, never on time or readings. */
  lemma {:induction false} TraceLimit(c: Config, start: int, ins: seq<TickInput>, k: nat)
    requires k <= |ins|
    ensures StateAt(c, Initial(c, start), ins, k).limit == LimitAt(c, k)
  {
    if k > 0 {
      TraceLimit(c, start, ins, k - 1);
    }
  }

  /** The first cycle counts down from `limit_max`. */
  lemma {:induction false} FirstCycle(c: Config, r: nat)
    requires c.WellFormed() && r < c.LimitMax()
    ensures LimitAt(c, r) == c.LimitMax() - r
  {
    if r > 0 {
      FirstCycle(c, r - 1);
    }
  }

  /** The counter repeats every `limit_max` ticks. */
  lemma {:induction false} LimitPeriodic(c: Config, k: nat)
    requires c.WellFormed()
    ensures LimitAt(c, k + c.LimitMax()) == LimitAt(c, k)
  {
    if k == 0 {
      FirstCycle(c, c.LimitMax() - 1);
    } else {
      LimitPeriodic(c, k - 1);
    }
  }

  /** Closed form: before tick `k` the counter is `limit_max - k % limit_max`. */
  lemma {:induction false} LimitClosedForm(c: Config, k: nat)
    requires c.WellFormed()
    ensures LimitAt(c, k) == c.LimitMax() - k % c.LimitMax()
    decreases k
  {
    var m := c.LimitMax();
    if k < m {
      FirstCycle(c, k);
      ModUnique(k, m, 0, k);
    } else {
      LimitClosedForm(c, k - m);
      LimitPeriodic(c, k - m);
      ModSubtract(k, m);
    }
  }

  /** Whenever a tick reads the counter it lies in 1..limit_max; there is
      no tick at which it is 0. */
  lemma LimitBounds(c: Config, k: nat)
    requires c.WellFormed()
    ensures 1 <= LimitAt(c, k) <= c.LimitMax()
  {
  }

  /** Tick `k` shows data exactly when its position in the cycle is below
      `limit_visible`: the first `limit_visible` ticks of every cycle are
      visible and the remaining `limit_low` are blank. */
  lemma VisibilityPattern(c: Config, k: nat)
    requires c.WellFormed()
    ensures LimitAt(c, k) > c.limitLow <==> k % c.LimitMax() < c.limitVisible
  {
    LimitClosedForm(c, k);
  }

  /** The number of visible ticks among ticks `from` .. `from + len - 1`. */
  function CountVisible(c: Config, from: nat, len: nat): nat
  {
    if len == 0 then 0
    else CountVisible(c, from, len - 1) + (if LimitAt(c, from + len - 1) > c.limitLow then 1 else 0)
  }

  lemma {:induction false} CountFirstCycle(c: Config, r: nat)
    requires c.WellFormed() && r <= c.LimitMax()
    ensures CountVisible(c, 0, r) == if r <= c.limitVisible then r else c.limitVisible
  {
    if r > 0 {
      CountFirstCycle(c, r - 1);
      FirstCycle(c, r - 1);
    }
  }

  lemma {:induction false} CountShift(c: Config, from: nat, len: nat)
    requires c.WellFormed()
    ensures CountVisible(c, from + c.LimitMax(), len) == CountVisible(c, from, len)
  {
    if len > 0 {
      CountShift(c, from, len - 1);
      LimitPeriodic(c, from + len - 1);
    }
  }

  lemma {:induction false} CountSplit(c: Config, from: nat, a: nat, b: nat)
    ensures CountVisible(c, from, a + b) == CountVisible(c, from, a) + CountVisible(c, from + a, b)
  {
    if b > 0 {
      CountSplit(c, from, a, b - 1);
    }
  }

  /** Exactly `limit_visible` visible ticks in every cycle of `limit_max`
      ticks, wherever the cycle starts. */
  lemma {:induction false} CountAnyCycle(c: Config, from: nat)
    requires c.WellFormed()
    ensures CountVisible(c, from, c.LimitMax()) == c.limitVisible
    decreases from
  {
    var m := c.LimitMax();
    if from == 0 {
      CountFirstCycle(c, m);
    } else if from >= m {
      CountAnyCycle(c, from - m);
      CountShift(c, from - m, m);
    } else {
      // ticks from .. m - 1 and then m .. m + from - 1, the shifted copy of 0 .. from - 1
      CountSplit(c, from, m - from, from);
      CountShift(c, 0, from);
      CountSplit(c, 0, from, m - from);
      CountFirstCycle(c, m);
    }
  }

  /** Over `n` whole cycles exactly `n * limit_visible` ticks are visible. */
  lemma {:induction false} CountCycles(c: Config, n: nat)
    requires c.WellFormed()
    ensures CountVisible(c, 0, n * c.LimitMax()) == n * c.limitVisible
  {
    if n > 0 {
      var m := c.LimitMax();
      var before := (n - 1) * m;
      NextMultiple(n, m);
      NextMultiple(n, c.limitVisible);
      CountCycles(c, n - 1);
      CountSplit(c, 0, before, m);
      CountAnyCycle(c, before);
    }
  }

  /** With the program's settings the display shows data for three ticks
      and stays blank for the fourth, over and over. */
  lemma ProgramDutyCycle(k: nat)
    ensures 1 <= LimitAt(PROGRAM_CONFIG, k) <= 4
    ensures LimitAt(PROGRAM_CONFIG, k) > PROGRAM_CONFIG.limitLow <==> k % 4 != 3
  {
    LimitClosedForm(PROGRAM_CONFIG, k);
  }

  // Arithmetic on the cycle length that the solver does not find unaided.

  lemma NextMultiple(n: int, m: int)
    ensures n * m == (n - 1) * m + m
  {
  }

  lemma ModSubtract(k: int, m: int)
    requires m > 0 && k >= m
    ensures (k - m) % m == k % m
  {
    var q, r := (k - m) / m, (k - m) % m;
    assert k - m == q * m + r;
    assert k == (q + 1) * m + r;
    ModUnique(k, m, q + 1, r);
  }

  lemma ModUnique(k: int, m: int, q: int, r: int)
    requires m > 0 && 0 <= r < m && k == q * m + r
    ensures k % m == r
  {
    var q', r' := k / m, k % m;
    assert k == q' * m + r';
    assert (q - q') * m == r' - r;
    if q > q' {
      AtLeastOnce(q - q', m);
    } else if q < q' {
      AtLeastOnce(q' - q, m);
    }
  }

  lemma {:induction false} AtLeastOnce(d: int, m: int)
    requires d >= 1 && m > 0
    ensures d * m >= m
    decreases d
  {
    if d > 1 {
      AtLeastOnce(d - 1, m);
      assert d * m == (d - 1) * m + m;
    }
  }

  /** What `Monitor.Run` reports for a fresh monitor: tick `k` shows data
      exactly when `k mod limit_max < limit_visible`, whatever the times and
      readings of the run. */
  lemma RunVisibility(c: Config, start: int, ins: seq<TickInput>, k: nat)
    requires c.WellFormed() && k < |ins|
    ensures VisibleTrace(c, Initial(c, start), ins, |ins|)[k] <==> k % c.LimitMax() < c.limitVisible
  {
    TracesAt(c, Initial(c, start), ins, |ins|, k);
    TraceLimit(c, start, ins, k);
    VisibilityPattern(c, k);
  }
}
