/**
 The accounting loop of `scan` for ICMP as the only method, with what it reads from the
 shared state as parameters; and the readings and counts of the runs of the transition
 system, for which the loop computes what the run sends.
 */
module BoreasReports {
  import opened Lists
  import opened Boreas

  // ------------------------------------------------------------------ Specification

  /** The number of reports due among the first `packets` pings. */
  function ReportsDue(c: Config, packets: nat): nat {
    if packets == 0 then 0
    else ReportsDue(c, packets - 1) + if ReportDue(c, packets) then 1 else 0
  }

  /** How many reports are due after p pings. */
  lemma {:induction false} ReportsDueClosed(c: Config, packets: nat)
    requires c.icmpOnly && packets <= |c.targets|
    ensures |c.targets| <= BATCH ==> ReportsDue(c, packets) == 0
    ensures |c.targets| > BATCH ==>
              ReportsDue(c, packets) == Min(packets / BATCH, (|c.targets| - 1) / BATCH - 1)
  {
    if packets > 0 {
      ReportsDueClosed(c, packets - 1);
    }
  }

  /** The accounting variables after reports with these readings. */
  function AccountAfter(c: Config, reports: seq<Report>): Account {
    if reports == [] then Init(c).account
    else
      var n := |reports| - 1;
      BatchReport(c.max, AccountAfter(c, reports[..n]), reports[n].size, reports[n].reached)
  }

  /** The counts a whole scan sends; the last reading is taken after the join. */
  function CountsSent(c: Config, reports: seq<Report>, last: Report): seq<int> {
    var a := AccountAfter(c, reports);
    a.dead + [FinalAmount(c, a, last.size, last.reached)]
  }

  /** Sizes grow and the flag stays set; while it is not set at most `max` hosts are
      alive, and when it is set in the end at least `max` are. */
  ghost predicate Coherent(max: nat, reports: seq<Report>, last: Report) {
    && (forall i, j :: 0 <= i < j < |reports| ==>
          reports[i].size <= reports[j].size && (reports[i].reached ==> reports[j].reached))
    && (forall i :: 0 <= i < |reports| ==>
          && reports[i].size <= last.size && (reports[i].reached ==> last.reached)
          && (!reports[i].reached ==> reports[i].size <= max))
    && (if last.reached then last.size >= max else last.size <= max)
  }

  /** With coherent readings the reports telescope. */
  lemma {:induction false} AccountBalance(c: Config, reports: seq<Report>, last: Report)
    requires c.max > 0 && Coherent(c.max, reports, last)
    ensures var a := AccountAfter(c, reports);
            && |a.dead| == |reports|
            && a.remaining == |c.targets| - BATCH * |reports|
            && Sum(a.dead) == BATCH * |reports| - (if a.handled then c.max else a.prev)
            && (a.handled <==> reports != [] && reports[|reports| - 1].reached)
            && (!a.handled ==> 0 <= a.prev <= Min(last.size, c.max))
  {
    hide Sum;
    if reports == [] {
      SumOfNone();
    } else {
      var n := |reports| - 1;
      var front := reports[..n];
      AccountBalance(c, front, last);
      assert n > 0 ==> front[n - 1] == reports[n - 1];
      BatchReportBalance(c.max, AccountAfter(c, front), reports[n].size, reports[n].reached);
    }
  }

  lemma {:induction false} SumOfNone()
    ensures Sum([]) == 0
  {
  }

  /** With coherent readings the counts of a whole scan sum up to the targets that are not
      alive or beyond the limit. */
  lemma {:induction false} CountsSentSum(c: Config, reports: seq<Report>, last: Report)
    requires c.max > 0 && c.icmpOnly && Coherent(c.max, reports, last)
    ensures Sum(CountsSent(c, reports, last)) == |c.targets| - Min(last.size, c.max)
  {
    hide Sum, AccountAfter;
    var a := AccountAfter(c, reports);
    AccountBalance(c, reports, last);
    SumAppend(a.dead, FinalAmount(c, a, last.size, last.reached));
  }

  /** How many hosts a reading considers alive. */
  function Considered(max: nat, r: Report): nat {
    if r.reached then max else r.size
  }

  /** The k-th reading; the last one is that of the final report. */
  function ReadingAt(reports: seq<Report>, last: Report, k: nat): Report
    requires k <= |reports|
  {
    if k < |reports| then reports[k] else last
  }

  lemma {:induction false} AccountPrefix(c: Config, reports: seq<Report>, k: nat)
    requires k < |reports|
    ensures var a, b := AccountAfter(c, reports), AccountAfter(c, reports[..k + 1]);
            |a.dead| == |reports| && |b.dead| == k + 1 && a.dead[k] == b.dead[k]
  {
    var n := |reports| - 1;
    AccountLength(c, reports);
    AccountLength(c, reports[..k + 1]);
    if k < n {
      AccountPrefix(c, reports[..n], k);
      assert reports[..n][..k + 1] == reports[..k + 1];
    } else {
      assert reports[..k + 1] == reports;
    }
  }

  lemma {:induction false} AccountLength(c: Config, reports: seq<Report>)
    ensures |AccountAfter(c, reports).dead| == |reports|
    ensures AccountAfter(c, reports).prev == if reports == [] then 0 else reports[|reports| - 1].size
    ensures AccountAfter(c, reports).remaining == |c.targets| - BATCH * |reports|
  {
    if reports != [] {
      AccountLength(c, reports[..|reports| - 1]);
    }
  }

  lemma {:induction false} HandledIsReached(c: Config, reports: seq<Report>, last: Report)
    requires c.max > 0 && Coherent(c.max, reports, last)
    ensures AccountAfter(c, reports).handled <==> reports != [] && reports[|reports| - 1].reached
  {
    hide Sum;
    AccountBalance(c, reports, last);
  }

  lemma {:induction false} CoherentPrefix(max: nat, reports: seq<Report>, last: Report, k: nat)
    requires Coherent(max, reports, last) && k <= |reports|
    ensures Coherent(max, reports[..k], last)
  {
  }

  /** The size of the batch that the k-th count stands for. */
  function BatchSize(c: Config, reports: seq<Report>, k: nat): int
    requires k <= |reports|
  {
    if k < |reports| then BATCH else |c.targets| - BATCH * |reports|
  }

  /** A single count is the size of its batch minus the hosts newly considered alive. So it
      is negative exactly when more hosts were found since the previous report than the
      batch has; targets may answer at any time. */
  lemma {:induction false} CountSent(c: Config, reports: seq<Report>, last: Report, k: nat)
    requires c.max > 0 && c.icmpOnly && Coherent(c.max, reports, last) && k <= |reports|
    ensures |CountsSent(c, reports, last)| == |reports| + 1
    ensures var before := if k == 0 then 0 else Considered(c.max, reports[k - 1]);
            var found := Considered(c.max, ReadingAt(reports, last, k)) - before;
            && CountsSent(c, reports, last)[k] == BatchSize(c, reports, k) - found
            && (CountsSent(c, reports, last)[k] < 0 <==> found > BatchSize(c, reports, k))
  {
    hide AccountAfter, Coherent;
    var front := reports[..k];
    AccountLength(c, reports);
    AccountLength(c, front);
    CoherentPrefix(c.max, reports, last, k);
    HandledIsReached(c, front, last);
    if k > 0 && reports[k - 1].reached {
      ReachedStays(c.max, reports, last, k);
    }
    if k < |reports| {
      AccountPrefix(c, reports, k);
      AccountOfNext(c, reports[..k + 1]);
      assert reports[..k + 1][..k] == front;
    } else {
      assert front == reports;
    }
  }

  lemma {:induction false} ReachedStays(max: nat, reports: seq<Report>, last: Report, k: nat)
    requires Coherent(max, reports, last) && 0 < k <= |reports| && reports[k - 1].reached
    ensures ReadingAt(reports, last, k).reached
  {
  }

  /** Coherent readings with a negative count: 2000 of 4000 targets are found between two
      reports. */
  lemma {:induction false} NegativeCount(c: Config)
    requires c.icmpOnly && |c.targets| == 4000 && c.max == 5000
    ensures var reports, last := [Report(0, false), Report(2000, false)], Report(2000, false);
            && Coherent(c.max, reports, last) && |reports| == ReportsDue(c, |c.targets|)
            && CountsSent(c, reports, last) == [1000, -1000, 2000]
  {
    hide AccountAfter, ReportsDue;
    var reports, last := [Report(0, false), Report(2000, false)], Report(2000, false);
    ReportsDueClosed(c, 4000);
    CountSent(c, reports, last, 0);
    CountSent(c, reports, last, 1);
    CountSent(c, reports, last, 2);
  }

  // ----------------------------------------------------------------------- The loop

  /** The ping loop of `scan`: a report is sent after every full batch while more than a
      batch is left, so that at most two batches are left behind the last report. */
  method SendIcmpBatches(c: Config, reports: seq<Report>) returns (a: Account)
    requires c.icmpOnly && |reports| == ReportsDue(c, |c.targets|)
    ensures a == AccountAfter(c, reports)
    ensures a.remaining == |c.targets| - BATCH * |reports|
    ensures |c.targets| > BATCH ==> BATCH < a.remaining <= 2 * BATCH
    ensures |c.targets| <= BATCH ==> reports == [] && a.remaining == |c.targets|
  {
    var remaining := |c.targets|;
    var prev: int := 0;
    var limitReachedHandled := false;
    var dead: seq<int> := [];
    var packets, k := 0, 0;
    while packets < |c.targets|
      invariant packets <= |c.targets|
      invariant k == ReportsDue(c, packets) <= |reports|
      invariant remaining == |c.targets| - BATCH * k
      invariant Account(remaining, prev, limitReachedHandled, dead) == AccountAfter(c, reports[..k])
    {
      packets := packets + 1;
      ReportsDueMonotone(c, packets, |c.targets|);
      if packets % BATCH == 0 && |c.targets| - packets > BATCH {
        var curr := reports[k].size;
        var amount := BATCH - (curr - prev);
        if reports[k].reached {
          if !limitReachedHandled {
            amount := BATCH - (c.max - prev);
            limitReachedHandled := true;
          } else {
            amount := BATCH;
          }
        }
        assert reports[..k + 1][..k] == reports[..k];
        dead := dead + [amount];
        remaining := remaining - BATCH;
        prev := curr;
        k := k + 1;
      }
    }
    assert reports[..k] == reports;
    ReportsDueClosed(c, |c.targets|);
    a := Account(remaining, prev, limitReachedHandled, dead);
  }

  lemma {:induction false} ReportsDueMonotone(c: Config, m: nat, n: nat)
    requires m <= n
    ensures ReportsDue(c, m) <= ReportsDue(c, n)
    decreases n - m
  {
    if m < n {
      ReportsDueMonotone(c, m, n - 1);
    }
  }

  /** `scan`: the ping loop, then the report for the last batch. */
  method ScanIcmp(c: Config, reports: seq<Report>, last: Report) returns (dead: seq<int>)
    requires c.max > 0 && c.icmpOnly && |reports| == ReportsDue(c, |c.targets|)
    ensures dead == CountsSent(c, reports, last)
    ensures Coherent(c.max, reports, last) ==> Sum(dead) == |c.targets| - Min(last.size, c.max)
  {
    hide Sum, ReportsDue, AccountAfter;
    var a := SendIcmpBatches(c, reports);
    var amount;
    if last.reached {
      amount := if !a.handled then a.remaining - (c.max - a.prev) else a.remaining;
    } else {
      amount := a.remaining - (last.size - a.prev);
    }
    dead := a.dead + [amount];
    if Coherent(c.max, reports, last) {
      CountsSentSum(c, reports, last);
    }
  }

  // ---------------------------------------------------------------- Readings of runs

  /** What a run has read so far: in order, of what is alive now, and at most the limit
      while the flag was not seen. */
  ghost predicate ReadsInv(c: Config, s: State) {
    && (forall i, j :: 0 <= i < j < |s.reports| ==>
          s.reports[i].size <= s.reports[j].size && (s.reports[i].reached ==> s.reports[j].reached))
    && (forall i :: 0 <= i < |s.reports| ==>
          && s.reports[i].size <= |s.alive| && (s.reports[i].reached ==> s.flag)
          && (!s.reports[i].reached ==> s.reports[i].size <= c.max))
    && (s.point.SizeRead? ==> forall i :: 0 <= i < |s.reports| ==> s.reports[i].size <= s.point.curr)
    && (s.point.FlagRead? ==>
          s.reports != [] && s.reports[|s.reports| - 1] == Report(s.point.curr, s.point.reached))
  }

  /** The readings whose reports have been sent. */
  ghost function Used(s: State): seq<Report> {
    if s.point.FlagRead? && s.reports != [] then s.reports[..|s.reports| - 1] else s.reports
  }

  /** The accounting of a run is that of its readings, and there is one reading for every
      report that was due. */
  ghost predicate SentInv(c: Config, s: State) {
    && s.packets <= |c.targets|
    && (if s.point.Reported? || s.point.Done? then
          s.account.dead == CountsSent(c, s.reports, Report(|s.alive|, s.flag))
        else
          s.account == AccountAfter(c, Used(s)))
    && |s.reports| + (if s.point.Reporting? || s.point.SizeRead? then 1 else 0) == ReportsDue(c, s.packets)
    && (s.point.Joined? || s.point.Reported? || s.point.Done? ==> s.packets == |c.targets|)
  }

  lemma {:induction false} ReadKeepsReadsInv(c: Config, s: State)
    requires c.max > 0 && SnifferInv(c, s) && AccountInv(c, s) && ReadsInv(c, s) && Enabled(c, s, ReadFlag)
    ensures ReadsInv(c, Apply(c, s, ReadFlag))
  {
    hide Sum;
    AccountInvStep(c, s, ReadFlag);
  }

  /** The sniffer and the consumer change nothing that the pinging thread has; and the
      sniffer finds hosts only while it is running. */
  lemma {:induction false} OthersKeepReports(c: Config, s: State, step: Step)
    requires SnifferInv(c, s) && Enabled(c, s, step)
    requires step.Packet? || step.Count? || step.Push? || step.Limit? || step.Pop?
    ensures var t := Apply(c, s, step);
            && t.reports == s.reports && t.point == s.point && t.account == s.account && t.packets == s.packets
            && s.alive <= t.alive && (s.flag ==> t.flag)
            && (!s.running ==> t.alive == s.alive && t.flag == s.flag)
  {
    hide Lpush, Rpop, Rlast;
  }

  lemma {:induction false} PingerKeepsShared(c: Config, s: State, step: Step)
    requires Enabled(c, s, step)
    requires !step.Packet? && !step.Count? && !step.Push? && !step.Limit? && !step.Pop?
    ensures Apply(c, s, step).alive == s.alive && Apply(c, s, step).flag == s.flag
  {
    hide Lpush, BatchReport, FinalAmount;
  }

  lemma {:induction false} ReadsInvStep(c: Config, s: State, step: Step)
    requires c.max > 0 && SnifferInv(c, s) && AccountInv(c, s) && ReadsInv(c, s) && Enabled(c, s, step)
    ensures ReadsInv(c, Apply(c, s, step))
  {
    hide AccountInv, SnifferInv, Lpush, Rpop, Rlast, BatchReport, FinalAmount;
    if step.Packet? || step.Count? || step.Push? || step.Limit? || step.Pop? {
      hide Apply;
      OthersKeepReports(c, s, step);
      SubsetSize(s.alive, Apply(c, s, step).alive);
    } else if step.ReadFlag? {
      ReadKeepsReadsInv(c, s);
    } else {
      PingerKeepsShared(c, s, step);
      ReadSizes(c, s);
    }
  }

  lemma {:induction false} ReadSizes(c: Config, s: State)
    requires ReadsInv(c, s)
    ensures forall i :: 0 <= i < |s.reports| ==> s.reports[i].size <= |s.alive|
  {
  }

  lemma {:induction false} JoinedIsStopped(c: Config, s: State)
    requires SnifferInv(c, s)
    ensures s.point.Joined? || s.point.Reported? || s.point.Done? ==> !s.running
  {
  }

  lemma {:induction false} SentInvStep(c: Config, s: State, step: Step)
    requires c.max > 0 && SnifferInv(c, s) && ReadsInv(c, s) && SentInv(c, s) && Enabled(c, s, step)
    ensures SentInv(c, Apply(c, s, step))
  {
    hide SnifferInv, Lpush, Rpop, Rlast, BatchReport, FinalAmount, AccountAfter;
    JoinedIsStopped(c, s);
    if step.Packet? || step.Count? || step.Push? || step.Limit? || step.Pop? {
      hide Apply;
      OthersKeepReports(c, s, step);
    } else {
      PingerKeepsShared(c, s, step);
      if step.ReadFlag? {
        assert Used(Apply(c, s, step)) == s.reports;
      } else if step.SendDead? {
        AccountOfNext(c, s.reports);
      }
    }
  }

  lemma {:induction false} AccountOfNext(c: Config, reports: seq<Report>)
    requires reports != []
    ensures var n := |reports| - 1;
            AccountAfter(c, reports) ==
            BatchReport(c.max, AccountAfter(c, reports[..n]), reports[n].size, reports[n].reached)
  {
  }

  lemma {:induction false} ReadsExec(c: Config, s: State, steps: seq<Step>)
    requires c.max > 0 && Inv(c, s) && ReadsInv(c, s) && SentInv(c, s) && ValidRun(c, s, steps)
    ensures var t := Exec(c, s, steps); Inv(c, t) && ReadsInv(c, t) && SentInv(c, t)
    decreases |steps|
  {
    hide ReadsInv, SentInv, SnifferInv, QueueInv, AccountInv, Apply, Enabled;
    if steps != [] {
      QueueInvStep(c, s, steps[0]);
      AccountInvStep(c, s, steps[0]);
      ReadsInvStep(c, s, steps[0]);
      SentInvStep(c, s, steps[0]);
      ReadsExec(c, Apply(c, s, steps[0]), steps[1..]);
    }
  }

  lemma {:induction false} CoherentEnd(c: Config, s: State)
    requires c.max > 0 && SnifferInv(c, s) && ReadsInv(c, s)
    ensures Coherent(c.max, s.reports, Report(|s.alive|, s.flag))
  {
  }

  lemma {:induction false} InitReports(c: Config)
    ensures ReadsInv(c, Init(c)) && SentInv(c, Init(c))
  {
  }

  /** What the pinging thread reads in a run is coherent at every moment; and once the scan
      has reported, the counts it sent are those that `ScanIcmp` returns for the readings
      of the run. */
  lemma {:induction false} RunReadings(c: Config, steps: seq<Step>)
    requires c.max > 0 && ValidRun(c, Init(c), steps)
    ensures var s := After(c, steps);
            && Coherent(c.max, s.reports, Report(|s.alive|, s.flag))
            && (s.point.Reported? || s.point.Done? ==>
                  && |s.reports| == ReportsDue(c, |c.targets|)
                  && s.account.dead == CountsSent(c, s.reports, Report(|s.alive|, s.flag)))
  {
    hide Coherent, CountsSent, ReadsInv, SnifferInv, QueueInv, AccountInv, ReportsDue, Init;
    InitInv(c);
    InitReports(c);
    ReadsExec(c, Init(c), steps);
    CoherentEnd(c, After(c, steps));
  }
}
