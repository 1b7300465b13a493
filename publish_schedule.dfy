/** The publish timer over many ticks: when publishes fire and how far
    apart they are, given a monotonic clock. */
module PublishSchedule {
  import opened MonitorLoop

  /** The monotonic readings of a run never go backwards: the first tick
      reads no earlier than the arming read `start`, each tick's second read
      comes after its first, and the next tick reads after that. */
  predicate WellTimed(start: int, ins: seq<TickInput>)
  {
    && (|ins| > 0 ==> start <= ins[0].monoTime)
    && (forall i :: 0 <= i < |ins| ==> ins[i].monoTime <= ins[i].rearmTime)
    && (forall i :: 1 <= i < |ins| ==> ins[i - 1].rearmTime <= ins[i].monoTime)
  }

  /** Tick `k` publishes. */
  predicate PublishedAt(c: Config, s0: State, ins: seq<TickInput>, k: nat)
    requires k < |ins|
  {
    IsDue(StateAt(c, s0, ins, k), ins[k].monoTime)
  }

  lemma {:induction false} ClockNondecreasing(start: int, ins: seq<TickInput>, i: nat, j: nat)
    requires WellTimed(start, ins) && i <= j < |ins|
    ensures ins[i].monoTime <= ins[j].monoTime
    decreases j
  {
    if i < j {
      ClockNondecreasing(start, ins, i, j - 1);
    }
  }

  /** After a publish at tick `i` the deadline stays at least one interval
      past that tick's time, whatever happens later. */
  lemma {:induction false} DeadlineAfterPublish(
    c: Config, s0: State, start: int, ins: seq<TickInput>, i: nat, k: nat)
    requires WellTimed(start, ins) && i < k <= |ins|
    requires PublishedAt(c, s0, ins, i)
    ensures StateAt(c, s0, ins, k).nextInterval >= ins[i].monoTime + c.writeInterval
    decreases k
  {
    if k > i + 1 {
      DeadlineAfterPublish(c, s0, start, ins, i, k - 1);
      if PublishedAt(c, s0, ins, k - 1) {
        ClockNondecreasing(start, ins, i, k - 1);
      }
    }
  }

  /** Two publishes are at least `write_interval` apart in monotonic time,
      however often the loop runs. */
  lemma PublishSpacing(c: Config, s0: State, start: int, ins: seq<TickInput>, i: nat, j: nat)
    requires WellTimed(start, ins) && i < j < |ins|
    requires PublishedAt(c, s0, ins, i) && PublishedAt(c, s0, ins, j)
    ensures ins[j].monoTime >= ins[i].monoTime + c.writeInterval
  {
    DeadlineAfterPublish(c, s0, start, ins, i, j);
  }

  lemma {:induction false} DeadlineNotBeforeStart(c: Config, start: int, ins: seq<TickInput>, k: nat)
    requires WellTimed(start, ins) && k <= |ins|
    ensures StateAt(c, Initial(c, start), ins, k).nextInterval >= start + c.writeInterval
  {
    if k > 0 {
      DeadlineNotBeforeStart(c, start, ins, k - 1);
      if PublishedAt(c, Initial(c, start), ins, k - 1) {
        ClockNondecreasing(start, ins, 0, k - 1);
      }
    }
  }

  /** No publish happens before one full interval has passed since the
      timer was armed. */
  lemma FirstPublishNotEarly(c: Config, start: int, ins: seq<TickInput>, j: nat)
    requires WellTimed(start, ins) && j < |ins|
    requires PublishedAt(c, Initial(c, start), ins, j)
    ensures ins[j].monoTime >= start + c.writeInterval
  {
    DeadlineNotBeforeStart(c, start, ins, j);
  }

  /** Ticks that do not publish leave the deadline where it was. */
  lemma {:induction false} QuietTicksKeepDeadline(
    c: Config, s0: State, ins: seq<TickInput>, i: nat, k: nat)
    requires i <= k <= |ins|
    requires forall j :: i <= j < k ==> !PublishedAt(c, s0, ins, j)
    ensures StateAt(c, s0, ins, k).nextInterval == StateAt(c, s0, ins, i).nextInterval
    decreases k
  {
    if k > i {
      QuietTicksKeepDeadline(c, s0, ins, i, k - 1);
      assert !PublishedAt(c, s0, ins, k - 1);
    }
  }

  /** After tick `i`'s deadline is set, the first tick whose monotonic time
      reaches it publishes, and none before it does. */
  lemma FiresWhenDue(c: Config, s0: State, ins: seq<TickInput>, i: nat, k: nat)
    requires i <= k < |ins|
    requires forall j :: i <= j < k ==> !PublishedAt(c, s0, ins, j)
    ensures PublishedAt(c, s0, ins, k) <==> ins[k].monoTime >= StateAt(c, s0, ins, i).nextInterval
  {
    QuietTicksKeepDeadline(c, s0, ins, i, k);
  }

  /** Scheduling reads only the monotonic clock: runs that differ in
      calendar time or readings but not in monotonic reads go through the
      same states. */
  lemma {:induction false} ScheduleIgnoresCalendar(
    c: Config, s0: State, ins: seq<TickInput>, ins': seq<TickInput>, k: nat)
    requires |ins| == |ins'| && k <= |ins|
    requires forall j :: 0 <= j < |ins| ==>
      ins[j].monoTime == ins'[j].monoTime && ins[j].rearmTime == ins'[j].rearmTime
    ensures StateAt(c, s0, ins, k) == StateAt(c, s0, ins', k)
  {
    if k > 0 {
      ScheduleIgnoresCalendar(c, s0, ins, ins', k - 1);
    }
  }

  /** What `Monitor.Run` reports: two ticks it marks as publishing are at
      least `write_interval` apart in monotonic time. */
  lemma RunPublishSpacing(c: Config, s0: State, start: int, ins: seq<TickInput>, i: nat, j: nat)
    requires WellTimed(start, ins) && i < j < |ins|
    requires PublishTrace(c, s0, ins, |ins|)[i] && PublishTrace(c, s0, ins, |ins|)[j]
    ensures ins[j].monoTime >= ins[i].monoTime + c.writeInterval
  {
    TracesAt(c, s0, ins, |ins|, i);
    TracesAt(c, s0, ins, |ins|, j);
    PublishSpacing(c, s0, start, ins, i, j);
  }
}
