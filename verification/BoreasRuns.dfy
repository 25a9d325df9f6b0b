/**
 What a run of the alive scan does, said from its steps alone: which targets had answered
 when, what the pinging thread therefore read, and what it sent.
 */
module BoreasRuns {
  import opened Lists
  import opened Boreas
  import opened BoreasReports

  // ------------------------------------------------------------ Said of the steps

  /** How often a step occurs. */
  function Times(steps: seq<Step>, step: Step): nat {
    if steps == [] then 0
    else Times(steps[..|steps| - 1], step) + if steps[|steps| - 1] == step then 1 else 0
  }

  /** Where a step occurs for the k-th time, counted from 0. */
  function Position(steps: seq<Step>, step: Step, k: nat): (i: nat)
    requires k < Times(steps, step)
    ensures i < |steps| && steps[i] == step && Times(steps[..i], step) == k
  {
    var n := |steps| - 1;
    if steps[n] == step && Times(steps[..n], step) == k then n
    else
      assert forall i :: 0 <= i < n ==> steps[..n][..i] == steps[..i];
      Position(steps[..n], step, k)
  }

  /** The targets that have answered. */
  ghost function Answered(c: Config, steps: seq<Step>): set<string> {
    set a | a in c.targets && Packet(a) in steps
  }

  /** The targets that have answered, in the order of their first answers. */
  function Discovered(c: Config, steps: seq<Step>): seq<string> {
    if steps == [] then []
    else
      var front, last := Discovered(c, steps[..|steps| - 1]), steps[|steps| - 1];
      if last.Packet? && last.addr in c.targets && last.addr !in front then front + [last.addr] else front
  }

  /** The limit is reached: as many hosts went through the limit decision. */
  predicate LimitReached(c: Config, steps: seq<Step>) {
    Times(steps, Limit) >= c.max
  }

  /** How many targets the k-th report considers alive: the limit if it was reached when the
      flag was read, and otherwise the targets that had answered when the table was read.
      The final report reads both after the sniffer has ended. */
  ghost function AliveAt(c: Config, steps: seq<Step>, k: nat): nat
    requires k <= Times(steps, ReadFlag) <= Times(steps, ReadSize)
  {
    if k < Times(steps, ReadFlag) then
      if LimitReached(c, steps[..Position(steps, ReadFlag, k)]) then c.max
      else |Answered(c, steps[..Position(steps, ReadSize, k)])|
    else if LimitReached(c, steps) then c.max
    else |Answered(c, steps)|
  }

  // ----------------------------------------------------------------- Longer by one

  lemma {:induction false} RunSnoc(c: Config, s: State, steps: seq<Step>)
    requires steps != []
    ensures var n := |steps| - 1;
            && (ValidRun(c, s, steps) <==>
                ValidRun(c, s, steps[..n]) && Enabled(c, Exec(c, s, steps[..n]), steps[n]))
            && (ValidRun(c, s, steps) ==>
                Exec(c, s, steps) == Apply(c, Exec(c, s, steps[..n]), steps[n]))
    decreases |steps|
  {
    hide Apply, Enabled;
    var n := |steps| - 1;
    if n == 0 {
      assert steps[..0] == [] && steps[1..] == [];
    } else if Enabled(c, s, steps[0]) {
      RunSnoc(c, Apply(c, s, steps[0]), steps[1..]);
      assert steps[..n][1..] == steps[1..][..n - 1] && steps[..n][0] == steps[0];
    } else {
      assert steps[..n][0] == steps[0];
    }
  }

  lemma {:induction false} AnsweredSnoc(c: Config, steps: seq<Step>)
    requires steps != []
    ensures var front, last := steps[..|steps| - 1], steps[|steps| - 1];
            Answered(c, steps) ==
            Answered(c, front) + if last.Packet? && last.addr in c.targets then {last.addr} else {}
  {
    assert steps == steps[..|steps| - 1] + [steps[|steps| - 1]];
  }

  // ---------------------------------------------------- The state says what the run is

  /** The history in the state is that of the run. */
  ghost predicate Told(c: Config, steps: seq<Step>, s: State) {
    && s.alive == Answered(c, steps)
    && s.found == Discovered(c, steps)
    && s.count == Times(steps, Count)
    && Handled(s) == Times(steps, Push)
    && Decided(s) == Times(steps, Limit)
    && s.packets == Times(steps, Send)
    && |s.reports| == Times(steps, ReadFlag)
    && Times(steps, ReadSize) == |s.reports| + if s.point.SizeRead? then 1 else 0
  }

  lemma {:induction false} TimesSnoc(steps: seq<Step>, step: Step, x: Step)
    ensures Times(steps + [step], x) == Times(steps, x) + if step == x then 1 else 0
  {
    assert (steps + [step])[..|steps|] == steps;
  }

  lemma {:induction false} DiscoveredSnoc(c: Config, steps: seq<Step>, step: Step)
    ensures Discovered(c, steps + [step]) ==
            if step.Packet? && step.addr in c.targets && step.addr !in Discovered(c, steps)
            then Discovered(c, steps) + [step.addr] else Discovered(c, steps)
    ensures Answered(c, steps + [step]) ==
            Answered(c, steps) + if step.Packet? && step.addr in c.targets then {step.addr} else {}
  {
    assert (steps + [step])[..|steps|] == steps;
    AnsweredSnoc(c, steps + [step]);
  }

  lemma {:induction false} AllTimesSnoc(steps: seq<Step>, step: Step)
    ensures var t := steps + [step];
            && Times(t, Count) == Times(steps, Count) + (if step == Count then 1 else 0)
            && Times(t, Push) == Times(steps, Push) + (if step == Push then 1 else 0)
            && Times(t, Limit) == Times(steps, Limit) + (if step == Limit then 1 else 0)
            && Times(t, Send) == Times(steps, Send) + (if step == Send then 1 else 0)
            && Times(t, ReadFlag) == Times(steps, ReadFlag) + (if step == ReadFlag then 1 else 0)
            && Times(t, ReadSize) == Times(steps, ReadSize) + (if step == ReadSize then 1 else 0)
  {
    hide Times;
    TimesSnoc(steps, step, Count);
    TimesSnoc(steps, step, Push);
    TimesSnoc(steps, step, Limit);
    TimesSnoc(steps, step, Send);
    TimesSnoc(steps, step, ReadFlag);
    TimesSnoc(steps, step, ReadSize);
  }

  lemma {:induction false} PacketTold(c: Config, front: seq<Step>, s: State, a: string)
    requires Told(c, front, s) && (forall x :: x in s.found <==> x in s.alive) && Enabled(c, s, Packet(a))
    ensures Told(c, front + [Packet(a)], Apply(c, s, Packet(a)))
  {
    hide Times, Discovered, Answered;
    AllTimesSnoc(front, Packet(a));
    DiscoveredSnoc(c, front, Packet(a));
  }

  lemma {:induction false} CountingTold(c: Config, front: seq<Step>, s: State, step: Step)
    requires Told(c, front, s) && Enabled(c, s, step) && (step.Count? || step.Push? || step.Limit?)
    ensures Told(c, front + [step], Apply(c, s, step))
  {
    hide Times, Discovered, Answered, Lpush;
    AllTimesSnoc(front, step);
    DiscoveredSnoc(c, front, step);
  }

  lemma {:induction false} FoundIsAlive(c: Config, s: State)
    requires SnifferInv(c, s)
    ensures forall a :: a in s.found <==> a in s.alive
  {
    var found := set i | 0 <= i < |s.found| :: s.found[i];
    FoundSize(s.found);
    assert found <= s.alive && |found| == |s.alive|;
    SubsetOfSameSize(found, s.alive);
  }

  lemma {:induction false} FoundSize(found: seq<string>)
    requires forall i, j :: 0 <= i < j < |found| ==> found[i] != found[j]
    ensures |(set i | 0 <= i < |found| :: found[i])| == |found|
  {
    if found != [] {
      var n := |found| - 1;
      FoundSize(found[..n]);
      var front := set i | 0 <= i < n :: found[..n][i];
      assert (set i | 0 <= i < |found| :: found[i]) == front + {found[n]};
    }
  }

  lemma {:induction false} SubsetOfSameSize(a: set<string>, b: set<string>)
    requires a <= b && |a| == |b|
    ensures a == b
  {
    if a != b {
      var x :| x in b && x !in a;
      SubsetSize(a, b - {x});
    }
  }

  lemma {:induction false} OthersTold(c: Config, front: seq<Step>, s: State, step: Step)
    requires Told(c, front, s) && Enabled(c, s, step)
    requires !step.Packet? && !step.Count? && !step.Push? && !step.Limit?
    ensures Told(c, front + [step], Apply(c, s, step))
  {
    hide Times, Discovered, Answered, Lpush, Rpop, Rlast, BatchReport, FinalAmount, ReportDue;
    AllTimesSnoc(front, step);
    DiscoveredSnoc(c, front, step);
  }

  lemma {:induction false} ToldStep(c: Config, front: seq<Step>, s: State, step: Step)
    requires Told(c, front, s) && SnifferInv(c, s) && Enabled(c, s, step)
    ensures Told(c, front + [step], Apply(c, s, step))
  {
    hide Told, Apply, Enabled;
    if step.Packet? {
      FoundIsAlive(c, s);
      PacketTold(c, front, s, step.addr);
    } else if step.Count? || step.Push? || step.Limit? {
      CountingTold(c, front, s, step);
    } else {
      OthersTold(c, front, s, step);
    }
  }

  lemma {:induction false} NothingTold(c: Config)
    ensures Told(c, [], Init(c))
  {
  }

  /** After every run the alive table holds the targets that have answered, the hosts found
      are in the order of their first answers, and the counters count steps. */
  lemma {:induction false} RunTold(c: Config, steps: seq<Step>)
    requires c.max > 0 && ValidRun(c, Init(c), steps)
    ensures Told(c, steps, After(c, steps))
    decreases |steps|
  {
    hide Told, SnifferInv, QueueInv, AccountInv, Apply, Enabled, Init;
    if steps == [] {
      NothingTold(c);
    } else {
      var n := |steps| - 1;
      hide ValidRun, Exec;
      RunSnoc(c, Init(c), steps);
      RunTold(c, steps[..n]);
      InvAfter(c, steps[..n]);
      ToldStep(c, steps[..n], After(c, steps[..n]), steps[n]);
      assert steps == steps[..n] + [steps[n]];
    }
  }

  // ------------------------------------------------------------------ What is read

  /** The size that was read but whose flag was not yet, or the k-th reading. */
  ghost predicate SizeAt(s: State, k: nat, size: nat) {
    (k < |s.reports| && s.reports[k].size == size) || (k == |s.reports| && s.point == SizeRead(size))
  }

  lemma {:induction false} SizeStep(c: Config, s: State, step: Step, k: nat, size: nat)
    requires Enabled(c, s, step) && SizeAt(s, k, size)
    ensures SizeAt(Apply(c, s, step), k, size)
  {
    hide Lpush, Rpop, Rlast, BatchReport, FinalAmount, ReportDue;
  }

  /** The table is read as it is: the k-th size is the number of targets that had answered
      when it was read. */
  lemma {:induction false} SizeReadInRun(c: Config, steps: seq<Step>, i: nat)
    requires c.max > 0 && ValidRun(c, Init(c), steps) && i < |steps| && steps[i] == ReadSize
    ensures SizeAt(After(c, steps), Times(steps[..i], ReadSize), |Answered(c, steps[..i])|)
    decreases |steps|
  {
    var n := |steps| - 1;
    RunSnoc(c, Init(c), steps);
    if i == n {
      RunTold(c, steps[..n]);
    } else {
      SizeReadInRun(c, steps[..n], i);
      assert steps[..n][..i] == steps[..i];
      SizeStep(c, After(c, steps[..n]), steps[n], Times(steps[..i], ReadSize), |Answered(c, steps[..i])|);
    }
  }

  lemma {:induction false} FlagStep(c: Config, s: State, step: Step, k: nat)
    requires Enabled(c, s, step) && k < |s.reports|
    ensures k < |Apply(c, s, step).reports| && Apply(c, s, step).reports[k] == s.reports[k]
  {
    hide Lpush, Rpop, Rlast, BatchReport, FinalAmount, ReportDue;
  }

  lemma {:induction false} FlagOfRun(c: Config, steps: seq<Step>)
    requires c.max > 0 && ValidRun(c, Init(c), steps)
    ensures After(c, steps).flag <==> LimitReached(c, steps)
  {
    RunTold(c, steps);
    InvAfter(c, steps);
  }

  /** The flag is read as it is. */
  lemma {:induction false} FlagReadInRun(c: Config, steps: seq<Step>, i: nat)
    requires c.max > 0 && ValidRun(c, Init(c), steps) && i < |steps| && steps[i] == ReadFlag
    ensures var k, reports := Times(steps[..i], ReadFlag), After(c, steps).reports;
            k < |reports| && reports[k].reached == LimitReached(c, steps[..i])
    decreases |steps|
  {
    var n := |steps| - 1;
    RunSnoc(c, Init(c), steps);
    if i == n {
      RunTold(c, steps[..n]);
      FlagOfRun(c, steps[..n]);
    } else {
      FlagReadInRun(c, steps[..n], i);
      assert steps[..n][..i] == steps[..i];
      FlagStep(c, After(c, steps[..n]), steps[n], Times(steps[..i], ReadFlag));
    }
  }

  /** What the pinging thread reads in a run: for every reading of the table, the number of
      targets that had answered by then, and for every reading of the flag, whether as many
      hosts as the limit had been decided by then. */
  lemma {:induction false} ReadingsOfRun(c: Config, steps: seq<Step>, i: nat)
    requires c.max > 0 && ValidRun(c, Init(c), steps) && i < |steps|
    ensures |After(c, steps).reports| == Times(steps, ReadFlag) <= Times(steps, ReadSize)
    ensures steps[i] == ReadSize && Times(steps[..i], ReadSize) < Times(steps, ReadFlag) ==>
              After(c, steps).reports[Times(steps[..i], ReadSize)].size == |Answered(c, steps[..i])|
    ensures steps[i] == ReadFlag ==>
              && Times(steps[..i], ReadFlag) < Times(steps, ReadFlag)
              && After(c, steps).reports[Times(steps[..i], ReadFlag)].reached == LimitReached(c, steps[..i])
  {
    hide After, Answered, LimitReached, Told;
    ReportsAreReads(c, steps);
    if steps[i] == ReadSize {
      SizeReadInRun(c, steps, i);
    }
    if steps[i] == ReadFlag {
      FlagReadInRun(c, steps, i);
    }
  }

  lemma {:induction false} ReportsAreReads(c: Config, steps: seq<Step>)
    requires c.max > 0 && ValidRun(c, Init(c), steps)
    ensures |After(c, steps).reports| == Times(steps, ReadFlag) <= Times(steps, ReadSize)
  {
    RunTold(c, steps);
  }

  // ------------------------------------------------------------------ What is sent

  lemma {:induction false} ConsideredInRun(c: Config, steps: seq<Step>, k: nat)
    requires c.max > 0 && ValidRun(c, Init(c), steps)
    requires |After(c, steps).reports| == Times(steps, ReadFlag) <= Times(steps, ReadSize)
    requires k <= Times(steps, ReadFlag)
    ensures var s := After(c, steps);
            Considered(c.max, ReadingAt(s.reports, Report(|s.alive|, s.flag), k)) == AliveAt(c, steps, k)
  {
    hide After, Answered, LimitReached;
    if k < Times(steps, ReadFlag) {
      ReadingsOfRun(c, steps, Position(steps, ReadFlag, k));
      ReadingsOfRun(c, steps, Position(steps, ReadSize, k));
    } else {
      FlagOfRun(c, steps);
      TableOfRun(c, steps);
    }
  }

  lemma {:induction false} TableOfRun(c: Config, steps: seq<Step>)
    requires c.max > 0 && ValidRun(c, Init(c), steps)
    ensures After(c, steps).alive == Answered(c, steps)
  {
    RunTold(c, steps);
  }

  /** Once an ICMP scan has reported, it has sent one count per batch and a last one, and
      each is its batch minus the targets that have come to be considered alive since the
      previous one. */
  lemma {:induction false} CountOfRun(c: Config, steps: seq<Step>, k: nat)
    requires c.max > 0 && c.icmpOnly && ValidRun(c, Init(c), steps)
    requires After(c, steps).point.Reported? || After(c, steps).point.Done?
    requires k <= ReportsDue(c, |c.targets|)
    ensures var n, dead := ReportsDue(c, |c.targets|), After(c, steps).account.dead;
            && |dead| == n + 1 && n == Times(steps, ReadFlag) <= Times(steps, ReadSize)
            && dead[k] == (if k < n then BATCH else |c.targets| - BATCH * n)
                          - (AliveAt(c, steps, k) - if k == 0 then 0 else AliveAt(c, steps, k - 1))
  {
    hide After, AliveAt, ReportsDue, Times, CountsSent, Coherent;
    var s := After(c, steps);
    RunReadings(c, steps);
    ReportsAreReads(c, steps);
    CountSent(c, s.reports, Report(|s.alive|, s.flag), k);
    ConsideredInRun(c, steps, k);
    if k > 0 {
      ConsideredInRun(c, steps, k - 1);
    }
  }

  /** The total, from the run alone. */
  lemma {:induction false} TotalOfRun(c: Config, steps: seq<Step>)
    requires c.max > 0 && ValidRun(c, Init(c), steps)
    requires After(c, steps).point.Reported? || After(c, steps).point.Done?
    ensures Sum(After(c, steps).account.dead) == |c.targets| - Min(|Answered(c, steps)|, c.max)
  {
    DeadHostAccounting(c, steps);
    RunTold(c, steps);
  }

  /** At every moment of a run the hosts pushed are the first targets that answered, as many
      as went through the queueing decision but at most the limit. */
  lemma {:induction false} QueuedInRun(c: Config, steps: seq<Step>)
    requires c.max > 0 && ValidRun(c, Init(c), steps)
    ensures var d := Discovered(c, steps);
            && Times(steps, Push) <= |d|
            && Hosts(After(c, steps).pushed) == d[..Min(Times(steps, Push), c.max)]
  {
    RunTold(c, steps);
    InvAfter(c, steps);
    PushedHosts(c, After(c, steps));
  }

  /** The order of discovery: every target that answered, once, and before those that
      answered first after it. */
  lemma {:induction false} DiscoveredOrder(c: Config, steps: seq<Step>, a: string)
    ensures a in Discovered(c, steps) <==> a in Answered(c, steps)
    ensures Distinct(Discovered(c, steps))
    decreases |steps|
  {
    if steps != [] {
      DiscoveredOrder(c, steps[..|steps| - 1], a);
      AnsweredSnoc(c, steps);
    }
  }

  lemma {:induction false} DiscoveredPrefix(c: Config, steps: seq<Step>, k: nat)
    requires k <= |steps|
    ensures Discovered(c, steps[..k]) <= Discovered(c, steps)
    decreases |steps|
  {
    if k < |steps| {
      DiscoveredPrefix(c, steps[..|steps| - 1], k);
      assert steps[..|steps| - 1][..k] == steps[..k];
    } else {
      assert steps[..k] == steps;
    }
  }
}
