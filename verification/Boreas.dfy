/**
 The alive scan of boreas as a transition system.

 Three threads share the set of hosts found alive, the counter and flag of the
 scan restrictions, and a Redis list that serves as a queue:
  - the pinging thread (`scan`) sends pings and reports dead hosts,
  - the sniffer thread (`got_packet`) records replies and queues alive hosts,
  - the consumer (`get_host_from_queue`) takes hosts from the queue.
 A step is one action on the shared state; a run is any sequence of enabled
 steps, so the theorems hold for every interleaving.
 */
module Boreas {
  import opened Lists
  import opened Text

  /** Number of pings between two dead-host reports. */
  const BATCH := 1000

  /** The signal on the queue that says that the scan is over. */
  const FINISHED := "alive_detection_finished"

  datatype Config = Config(targets: set<string>, max: nat, icmpOnly: bool)

  /** Where the sniffer is inside the handling of a packet. */
  datatype Phase = Listening | Added(addr: string) | Counted(addr: string) | Handed

  /** Where the pinging thread is inside `scan`. */
  datatype Point =
    | Sending
    | Reporting
    | SizeRead(curr: nat)
    | FlagRead(curr: nat, reached: bool)
    | Joined
    | Reported
    | Done

  /** The local variables of `scan` that do the accounting, and the counts sent. */
  datatype Account = Account(remaining: int, prev: int, handled: bool, dead: seq<int>)

  /** What the pinging thread reads for a report: the size of the alive table, then the
      limit flag. */
  datatype Report = Report(size: nat, reached: bool)

  datatype State = State(
    // Shared: hash table of alive hosts, scan restrictions, queue.
    alive: set<string>, count: nat, flag: bool, queue: seq<string>,
    // Sniffer thread.
    phase: Phase, running: bool,
    // Pinging thread.
    point: Point, packets: nat, account: Account,
    // Consumer.
    received: seq<string>, finished: bool, notScanned: Option<int>,
    // History: hosts in the order of discovery, everything ever pushed or read.
    found: seq<string>, pushed: seq<string>, reports: seq<Report>)

  datatype Step =
    | Packet(addr: string) | Count | Push | Limit
    | Send | ReadSize | ReadFlag | SendDead | StopSniffer | FinalReport | PutFinish
    | Pop

  /** What the sniffer extracts from a packet is a printed address. */
  predicate IsAddressText(s: string) {
    '.' in s || ':' in s
  }

  // ---------------------------------------------------------------- Redis list

  /** LPUSH. */
  function Lpush(list: seq<string>, x: string): seq<string> {
    [x] + list
  }

  /** The element RPOP returns. */
  function Rlast(list: seq<string>): string
    requires list != []
  {
    list[|list| - 1]
  }

  /** The list after RPOP. */
  function Rpop(list: seq<string>): seq<string>
    requires list != []
  {
    list[..|list| - 1]
  }

  /** The list in the order in which RPOP will deliver it. */
  function Delivery(list: seq<string>): (r: seq<string>)
    ensures |r| == |list|
    ensures forall i :: 0 <= i < |list| ==> r[i] == list[|list| - 1 - i]
  {
    if list == [] then [] else [Rlast(list)] + Delivery(Rpop(list))
  }

  lemma {:induction false} DeliveryAfterPush(list: seq<string>, x: string)
    ensures Delivery(Lpush(list, x)) == Delivery(list) + [x]
  {
  }

  // ----------------------------------------------------------------- The steps

  function Init(c: Config): State {
    State({}, 0, false, [], Listening, true, Sending, 0,
          Account(|c.targets|, 0, false, []), [], false, None, [], [], [])
  }

  predicate Enabled(c: Config, s: State, step: Step) {
    match step
    case Packet(addr) => s.running && s.phase.Listening? && IsAddressText(addr)
    case Count => s.running && s.phase.Added?
    case Push => s.running && s.phase.Counted?
    case Limit => s.running && s.phase.Handed?
    case Send => s.point.Sending? && s.packets < |c.targets|
    case ReadSize => s.point.Reporting?
    case ReadFlag => s.point.SizeRead?
    case SendDead => s.point.FlagRead?
    // The sniffer is cancelled and joined in whatever phase it is.
    case StopSniffer => s.point.Sending? && s.packets == |c.targets|
    case FinalReport => s.point.Joined?
    case PutFinish => s.point.Reported?
    case Pop => !s.finished && s.queue != []
  }

  /** After this many pings a report is due: a full batch was sent and more than
      a batch is left. */
  predicate ReportDue(c: Config, packets: nat) {
    c.icmpOnly && packets % BATCH == 0 && |c.targets| - packets > BATCH
  }

  /** The report after a batch, as a function of the two shared values read. */
  function BatchReport(max: nat, a: Account, curr: nat, reached: bool): Account {
    var amount :=
      if reached && !a.handled then BATCH - (max - a.prev)
      else if reached then BATCH
      else BATCH - (curr - a.prev);
    Account(a.remaining - BATCH, curr, a.handled || reached, a.dead + [amount])
  }

  /** The last number sent, after the sniffer has been joined. */
  function FinalAmount(c: Config, a: Account, alive: nat, reached: bool): int {
    if c.icmpOnly then
      if reached && !a.handled then a.remaining - (c.max - a.prev)
      else if reached then a.remaining
      else a.remaining - (alive - a.prev)
    else
      |c.targets| - (if reached then c.max else alive)
  }

  function Apply(c: Config, s: State, step: Step): State
    requires Enabled(c, s, step)
  {
    match step
    case Packet(addr) =>
      if addr in c.targets && addr !in s.alive then
        s.(alive := s.alive + {addr}, found := s.found + [addr], phase := Added(addr))
      else s
    case Count => s.(count := s.count + 1, phase := Counted(s.phase.addr))
    case Push =>
      if s.flag then s.(phase := Handed)
      else s.(queue := Lpush(s.queue, s.phase.addr), pushed := s.pushed + [s.phase.addr], phase := Handed)
    case Limit => s.(flag := s.flag || s.count == c.max, phase := Listening)
    case Send =>
      s.(packets := s.packets + 1, point := if ReportDue(c, s.packets + 1) then Reporting else Sending)
    case ReadSize => s.(point := SizeRead(|s.alive|))
    case ReadFlag =>
      s.(point := FlagRead(s.point.curr, s.flag), reports := s.reports + [Report(s.point.curr, s.flag)])
    case SendDead =>
      s.(account := BatchReport(c.max, s.account, s.point.curr, s.point.reached), point := Sending)
    case StopSniffer => s.(running := false, point := Joined)
    case FinalReport =>
      s.(account := s.account.(dead := s.account.dead + [FinalAmount(c, s.account, |s.alive|, s.flag)]),
         point := Reported)
    case PutFinish =>
      s.(queue := Lpush(s.queue, FINISHED), pushed := s.pushed + [FINISHED], point := Done)
    case Pop =>
      if Rlast(s.queue) == FINISHED then
        s.(queue := Rpop(s.queue), finished := true,
           notScanned := if s.flag && s.count - c.max != 0 then Some(s.count - c.max) else None)
      else
        s.(queue := Rpop(s.queue), received := s.received + [Rlast(s.queue)])
  }

  /** Every step of `steps`, taken in order from `s`, is enabled. */
  predicate ValidRun(c: Config, s: State, steps: seq<Step>)
    decreases |steps|
  {
    steps == [] || (Enabled(c, s, steps[0]) && ValidRun(c, Apply(c, s, steps[0]), steps[1..]))
  }

  function Exec(c: Config, s: State, steps: seq<Step>): State
    requires ValidRun(c, s, steps)
    decreases |steps|
  {
    if steps == [] then s else Exec(c, Apply(c, s, steps[0]), steps[1..])
  }

  // ------------------------------------------------------------ The invariants

  function Sum(s: seq<int>): int {
    if s == [] then 0 else Sum(s[..|s| - 1]) + s[|s| - 1]
  }

  lemma {:induction false} SumAppend(s: seq<int>, x: int)
    ensures Sum(s + [x]) == Sum(s) + x
  {
    assert (s + [x])[..|s|] == s;
  }

  lemma {:induction false} SubsetSize(a: set<string>, b: set<string>)
    requires a <= b
    ensures |a| <= |b|
  {
    if a != {} {
      var x :| x in a;
      SubsetSize(a - {x}, b - {x});
    }
  }

  /** How many of the found hosts went through the queueing decision. */
  function Handled(s: State): int {
    match s.phase
    case Listening => s.count
    case Added(_) => s.count
    case Counted(_) => s.count - 1
    case Handed => s.count
  }

  /** How many of the found hosts went through the limit decision. */
  function Decided(s: State): int {
    match s.phase
    case Listening => s.count
    case Added(_) => s.count
    case Counted(_) => s.count - 1
    case Handed => s.count - 1
  }

  /** What holds of the alive table, the counter and the flag. */
  ghost predicate SnifferInv(c: Config, s: State) {
    && s.alive <= c.targets
    && |s.alive| == |s.found|
    && (forall i :: 0 <= i < |s.found| ==> s.found[i] in s.alive)
    && (forall i, j :: 0 <= i < j < |s.found| ==> s.found[i] != s.found[j])
    && (forall i :: 0 <= i < |s.found| ==> IsAddressText(s.found[i]))
    && |s.found| == (if s.phase.Added? then s.count + 1 else s.count)
    && (s.phase.Added? || s.phase.Counted? ==> s.found != [] && s.phase.addr == s.found[|s.found| - 1])
    && (s.phase.Handed? ==> s.count > 0)
    && (s.flag <==> Decided(s) >= c.max)
    && (s.point.Joined? || s.point.Reported? || s.point.Done? <==> !s.running)
  }

  /** The hosts that have been pushed. */
  ghost function Queued(c: Config, s: State): seq<string>
    requires SnifferInv(c, s)
  {
    s.found[..Min(Handled(s), c.max)]
  }

  /** What holds of the queue and the consumer. */
  ghost predicate QueueInv(c: Config, s: State)
    requires SnifferInv(c, s)
  {
    && s.pushed == Queued(c, s) + (if s.point.Done? then [FINISHED] else [])
    && s.pushed == s.received + (if s.finished then [FINISHED] else []) + Delivery(s.queue)
    && FINISHED !in s.received
    && (s.finished ==> s.point.Done? && s.queue == [])
    && s.notScanned ==
       (if s.finished && s.flag && s.count != c.max then Some(s.count - c.max) else None)
  }

  /** What holds of the accounting of the pinging thread. */
  ghost predicate AccountInv(c: Config, s: State) {
    var a := s.account;
    && s.packets <= |c.targets|
    && (a.handled ==> s.flag)
    && (!a.handled ==> 0 <= a.prev <= Min(|s.alive|, c.max))
    && (s.point.Reporting? || s.point.SizeRead? || s.point.FlagRead? ==> c.icmpOnly)
    && (s.point.SizeRead? ==> 0 <= s.point.curr <= |s.alive|)
    && (s.point.FlagRead? ==> 0 <= s.point.curr <= |s.alive|)
    && (s.point.FlagRead? && s.point.reached ==> s.flag)
    && (s.point.FlagRead? && !s.point.reached ==> s.point.curr <= c.max && !a.handled)
    && (if s.point.Reported? || s.point.Done? then
          Sum(a.dead) == |c.targets| - (if s.flag then c.max else |s.alive|)
        else if c.icmpOnly then
          // Each of the reports stands for one batch of pings.
          && a.remaining == |c.targets| - BATCH * |a.dead|
          && Sum(a.dead) == BATCH * |a.dead| - (if a.handled then c.max else a.prev)
        else
          a.dead == [])
  }

  ghost predicate Inv(c: Config, s: State) {
    SnifferInv(c, s) && QueueInv(c, s) && AccountInv(c, s)
  }

  lemma {:induction false} InitInv(c: Config)
    requires c.max > 0
    ensures Inv(c, Init(c))
  {
  }

  lemma {:induction false} PacketKeepsSnifferInv(c: Config, s: State, addr: string)
    requires c.max > 0 && SnifferInv(c, s) && Enabled(c, s, Packet(addr))
    ensures SnifferInv(c, Apply(c, s, Packet(addr)))
  {
    var t := Apply(c, s, Packet(addr));
    if t != s {
      assert |t.alive| == |s.alive| + 1;
      assert forall i :: 0 <= i < |s.found| ==> t.found[i] == s.found[i];
    }
  }

  lemma {:induction false} CountingKeepsSnifferInv(c: Config, s: State, step: Step)
    requires c.max > 0 && SnifferInv(c, s) && Enabled(c, s, step)
    requires step.Count? || step.Push? || step.Limit?
    ensures SnifferInv(c, Apply(c, s, step))
  {
    var t := Apply(c, s, step);
    assert t.alive == s.alive && t.found == s.found && t.point == s.point && t.running == s.running;
  }

  lemma {:induction false} OthersKeepSnifferInv(c: Config, s: State, step: Step)
    requires SnifferInv(c, s) && Enabled(c, s, step)
    requires !step.Packet? && !step.Count? && !step.Push? && !step.Limit?
    ensures SnifferInv(c, Apply(c, s, step))
  {
    hide SnifferInv, Apply, Enabled;
    Stopped(c, s);
    OthersKeepSniffer(c, s, step);
    SameSniffer(c, s, Apply(c, s, step));
  }

  lemma {:induction false} Stopped(c: Config, s: State)
    requires SnifferInv(c, s)
    ensures !s.running <==> s.point.Joined? || s.point.Reported? || s.point.Done?
  {
  }

  /** The pinging thread and the consumer leave the data of the sniffer alone. */
  lemma {:induction false} OthersKeepSniffer(c: Config, s: State, step: Step)
    requires Enabled(c, s, step) && !step.Packet? && !step.Count? && !step.Push? && !step.Limit?
    requires !s.running <==> s.point.Joined? || s.point.Reported? || s.point.Done?
    ensures var t := Apply(c, s, step);
            && t.alive == s.alive && t.found == s.found
            && t.phase == s.phase && t.count == s.count && t.flag == s.flag
            && (!t.running <==> t.point.Joined? || t.point.Reported? || t.point.Done?)
  {
    hide Lpush, Rpop, Rlast, BatchReport, FinalAmount, ReportDue;
  }

  lemma {:induction false} SameSniffer(c: Config, s: State, t: State)
    requires SnifferInv(c, s) && t.alive == s.alive && t.found == s.found
    requires t.phase == s.phase && t.count == s.count && t.flag == s.flag
    requires !t.running <==> t.point.Joined? || t.point.Reported? || t.point.Done?
    ensures SnifferInv(c, t)
  {
  }

  lemma {:induction false} SnifferInvStep(c: Config, s: State, step: Step)
    requires c.max > 0 && SnifferInv(c, s) && Enabled(c, s, step)
    ensures SnifferInv(c, Apply(c, s, step))
  {
    if step.Packet? {
      PacketKeepsSnifferInv(c, s, step.addr);
    } else if step.Count? || step.Push? || step.Limit? {
      CountingKeepsSnifferInv(c, s, step);
    } else {
      OthersKeepSnifferInv(c, s, step);
    }
  }

  lemma {:induction false} FinishedIsNoAddress()
    ensures !IsAddressText(FINISHED)
  {
  }

  /** What the consumer takes next is the oldest entry it has not received, and it
      is the finish signal only when nothing else is left. */
  lemma {:induction false} NextDelivery(c: Config, s: State)
    requires SnifferInv(c, s) && QueueInv(c, s) && !s.finished && s.queue != []
    ensures Rlast(s.queue) == FINISHED ==> s.point.Done? && Rpop(s.queue) == []
    ensures s.pushed == s.received + [Rlast(s.queue)] + Delivery(Rpop(s.queue))
  {
    FinishedIsNoAddress();
    var k := |s.received|;
    assert s.pushed[k] == Rlast(s.queue);
    if Rlast(s.queue) == FINISHED {
      assert forall i :: 0 <= i < |Queued(c, s)| ==> s.pushed[i] == s.found[i];
      assert k == |Queued(c, s)|;
      assert |Delivery(s.queue)| == 1;
    }
  }

  lemma {:induction false} PushKeepsQueueInv(c: Config, s: State)
    requires c.max > 0 && SnifferInv(c, s) && QueueInv(c, s) && Enabled(c, s, Push)
    ensures SnifferInv(c, Apply(c, s, Push)) && QueueInv(c, Apply(c, s, Push))
  {
    SnifferInvStep(c, s, Push);
    DeliveryAfterPush(s.queue, s.phase.addr);
    if !s.flag {
      assert s.found[..s.count] == s.found[..s.count - 1] + [s.phase.addr];
    }
  }

  lemma {:induction false} PopKeepsHistory(c: Config, s: State)
    requires Enabled(c, s, Pop) && SnifferInv(c, s) && SnifferInv(c, Apply(c, s, Pop))
    ensures var t := Apply(c, s, Pop);
            && Queued(c, t) == Queued(c, s) && t.pushed == s.pushed && t.point == s.point
            && t.queue == Rpop(s.queue) && t.flag == s.flag && t.count == s.count
            && (if Rlast(s.queue) == FINISHED then
                  && t.received == s.received && t.finished
                  && t.notScanned == if s.flag && s.count - c.max != 0 then Some(s.count - c.max) else None
                else t.received == s.received + [Rlast(s.queue)] && !t.finished && t.notScanned == s.notScanned)
  {
    hide SnifferInv, Rpop, Rlast;
  }

  lemma {:induction false} PopKeepsQueueInv(c: Config, s: State)
    requires SnifferInv(c, s) && QueueInv(c, s) && Enabled(c, s, Pop)
    ensures SnifferInv(c, Apply(c, s, Pop)) && QueueInv(c, Apply(c, s, Pop))
  {
    OthersKeepSnifferInv(c, s, Pop);
    NextDelivery(c, s);
    PopKeepsHistory(c, s);
    assert Delivery([]) == [];
    hide SnifferInv, Apply, Rpop, Rlast, Delivery, Queued;
  }

  lemma {:induction false} SnifferKeepsQueueInv(c: Config, s: State, step: Step)
    requires c.max > 0 && SnifferInv(c, s) && QueueInv(c, s) && Enabled(c, s, step)
    requires step.Packet? || step.Count? || step.Limit?
    ensures SnifferInv(c, Apply(c, s, step)) && QueueInv(c, Apply(c, s, step))
  {
    SnifferInvStep(c, s, step);
    assert Queued(c, Apply(c, s, step)) == Queued(c, s);
  }

  lemma {:induction false} PingerKeepsQueueInv(c: Config, s: State, step: Step)
    requires SnifferInv(c, s) && QueueInv(c, s) && Enabled(c, s, step)
    requires !step.Packet? && !step.Count? && !step.Push? && !step.Limit? && !step.Pop?
    ensures SnifferInv(c, Apply(c, s, step)) && QueueInv(c, Apply(c, s, step))
  {
    hide Delivery, FinalAmount, BatchReport, ReportDue;
    OthersKeepSnifferInv(c, s, step);
    var t := Apply(c, s, step);
    assert Queued(c, t) == Queued(c, s) && t.received == s.received && t.finished == s.finished;
    if step.PutFinish? {
      DeliveryAfterPush(s.queue, FINISHED);
    }
  }

  lemma {:induction false} QueueInvStep(c: Config, s: State, step: Step)
    requires c.max > 0 && SnifferInv(c, s) && QueueInv(c, s) && Enabled(c, s, step)
    ensures SnifferInv(c, Apply(c, s, step)) && QueueInv(c, Apply(c, s, step))
  {
    if step.Push? {
      PushKeepsQueueInv(c, s);
    } else if step.Pop? {
      PopKeepsQueueInv(c, s);
    } else if step.Packet? || step.Count? || step.Limit? {
      SnifferKeepsQueueInv(c, s, step);
    } else {
      PingerKeepsQueueInv(c, s, step);
    }
  }

  /** The report after a batch telescopes. */
  lemma {:induction false} BatchReportBalance(max: nat, a: Account, curr: nat, reached: bool)
    requires reached || !a.handled
    ensures var b := BatchReport(max, a, curr, reached);
            Sum(b.dead) == Sum(a.dead) + BATCH
              + (if a.handled then max else a.prev) - (if b.handled then max else b.prev)
  {
    var b := BatchReport(max, a, curr, reached);
    SumAppend(a.dead, b.dead[|a.dead|]);
  }

  lemma {:induction false} SnifferKeepsAccountInv(c: Config, s: State, step: Step)
    requires c.max > 0 && SnifferInv(c, s) && AccountInv(c, s) && Enabled(c, s, step)
    requires step.Packet? || step.Count? || step.Push? || step.Limit? || step.Pop?
    ensures AccountInv(c, Apply(c, s, step))
  {
    var t := Apply(c, s, step);
    assert t.account == s.account && t.point == s.point;
    assert |s.alive| <= |t.alive| && (s.flag ==> t.flag);
  }

  lemma {:induction false} BatchKeepsAccountInv(c: Config, s: State)
    requires c.max > 0 && SnifferInv(c, s) && AccountInv(c, s) && Enabled(c, s, SendDead)
    ensures AccountInv(c, Apply(c, s, SendDead))
  {
    hide Sum, ReportDue;
    BatchReportBalance(c.max, s.account, s.point.curr, s.point.reached);
  }

  lemma {:induction false} FinalKeepsAccountInv(c: Config, s: State)
    requires c.max > 0 && SnifferInv(c, s) && AccountInv(c, s) && Enabled(c, s, FinalReport)
    ensures AccountInv(c, Apply(c, s, FinalReport))
  {
    var amount := FinalAmount(c, s.account, |s.alive|, s.flag);
    SumAppend(s.account.dead, amount);
    assert Sum([]) == 0;
    assert s.account.dead + [amount] == Apply(c, s, FinalReport).account.dead;
  }

  lemma {:induction false} PingerKeepsAccountInv(c: Config, s: State, step: Step)
    requires c.max > 0 && SnifferInv(c, s) && AccountInv(c, s) && Enabled(c, s, step)
    requires !step.Packet? && !step.Count? && !step.Push? && !step.Limit? && !step.Pop?
    ensures AccountInv(c, Apply(c, s, step))
  {
    hide Sum, BatchReport, FinalAmount;
    if step.SendDead? {
      BatchKeepsAccountInv(c, s);
    } else if step.FinalReport? {
      FinalKeepsAccountInv(c, s);
    } else {
      var t := Apply(c, s, step);
      assert t.alive == s.alive && t.flag == s.flag && t.account == s.account;
    }
  }

  lemma {:induction false} AccountInvStep(c: Config, s: State, step: Step)
    requires c.max > 0 && SnifferInv(c, s) && AccountInv(c, s) && Enabled(c, s, step)
    ensures AccountInv(c, Apply(c, s, step))
  {
    if step.Packet? || step.Count? || step.Push? || step.Limit? || step.Pop? {
      SnifferKeepsAccountInv(c, s, step);
    } else {
      PingerKeepsAccountInv(c, s, step);
    }
  }

  lemma {:induction false} InvExec(c: Config, s: State, steps: seq<Step>)
    requires c.max > 0 && Inv(c, s) && ValidRun(c, s, steps)
    ensures Inv(c, Exec(c, s, steps))
    decreases |steps|
  {
    if steps != [] {
      QueueInvStep(c, s, steps[0]);
      AccountInvStep(c, s, steps[0]);
      InvExec(c, Apply(c, s, steps[0]), steps[1..]);
    }
  }

  // -------------------------------------------------------------- The theorems

  /** The entries of a queue history that are hosts. */
  function Hosts(entries: seq<string>): seq<string> {
    if entries == [] then []
    else if entries[0] == FINISHED then Hosts(entries[1..])
    else [entries[0]] + Hosts(entries[1..])
  }

  lemma {:induction false} HostsOfHosts(entries: seq<string>, end: seq<string>)
    requires FINISHED !in entries && (end == [] || end == [FINISHED])
    ensures Hosts(entries + end) == entries
  {
    if entries != [] {
      HostsOfHosts(entries[1..], end);
      assert (entries + end)[1..] == entries[1..] + end;
    }
  }

  lemma {:induction false} PushedHosts(c: Config, s: State)
    requires SnifferInv(c, s) && QueueInv(c, s)
    ensures Hosts(s.pushed) == Queued(c, s)
  {
    FinishedIsNoAddress();
    HostsOfHosts(Queued(c, s), if s.point.Done? then [FINISHED] else []);
  }

  /** The state after a run of the whole scanner. */
  ghost function After(c: Config, steps: seq<Step>): State
    requires ValidRun(c, Init(c), steps)
  {
    Exec(c, Init(c), steps)
  }

  lemma {:induction false} InvAfter(c: Config, steps: seq<Step>)
    requires c.max > 0 && ValidRun(c, Init(c), steps)
    ensures Inv(c, After(c, steps))
  {
    InitInv(c);
    InvExec(c, Init(c), steps);
  }

  /** The sniffer was cut off after it added a host to the alive table and before
      it decided about the queue, with the limit not reached. */
  predicate CutBeforeQueueing(s: State) {
    !s.running && !s.flag && (s.phase.Added? || s.phase.Counted?)
  }

  /** Once the scan has reported, the dead-host counts it sent add up to the
      targets minus the alive hosts, where alive hosts beyond the limit count as
      dead; and they add up with the queued hosts to the number of targets exactly
      when the sniffer was not cut off between finding a host and queueing it. */
  lemma {:induction false} DeadHostAccounting(c: Config, steps: seq<Step>)
    requires c.max > 0 && ValidRun(c, Init(c), steps)
    requires After(c, steps).point.Reported? || After(c, steps).point.Done?
    ensures var s := After(c, steps);
            && Sum(s.account.dead) == |c.targets| - Min(|s.alive|, c.max)
            && |s.alive| <= |c.targets|
            && (Sum(s.account.dead) + |Hosts(s.pushed)| == |c.targets| <==> !CutBeforeQueueing(s))
  {
    InvAfter(c, steps);
    var s := After(c, steps);
    SubsetSize(s.alive, c.targets);
    PushedHosts(c, s);
  }

  /** The steps of a scan of one target that is found alive just before the sniffer is
      stopped. */
  function CutRun(a: string): seq<Step> {
    [Packet(a), Send, StopSniffer, FinalReport]
  }

  lemma {:induction false} RunCons(c: Config, s: State, step: Step, rest: seq<Step>)
    requires Enabled(c, s, step) && ValidRun(c, Apply(c, s, step), rest)
    ensures ValidRun(c, s, [step] + rest)
    ensures Exec(c, s, [step] + rest) == Exec(c, Apply(c, s, step), rest)
  {
    assert ([step] + rest)[1..] == rest;
  }

  lemma {:induction false} CutStates(c: Config, a: string)
    requires c.targets == {a} && c.max > 0 && c.icmpOnly && IsAddressText(a)
    ensures Enabled(c, Init(c), Packet(a))
    ensures var s := Apply(c, Init(c), Packet(a));
            && Enabled(c, s, Send) && Enabled(c, Apply(c, s, Send), StopSniffer)
            && var t := Apply(c, Apply(c, s, Send), StopSniffer);
               && Enabled(c, t, FinalReport) && t.phase == Added(a) && !t.flag && !t.running
               && |t.alive| == 1 && t.pushed == [] && t.account == Account(1, 0, false, [])
  {
  }

  lemma {:induction false} CutReport(c: Config, a: string, t: State)
    requires c.targets == {a} && c.icmpOnly && t.point.Joined? && t.phase == Added(a) && !t.flag && !t.running
    requires |t.alive| == 1 && t.pushed == [] && t.account == Account(1, 0, false, [])
    ensures var u := Apply(c, t, FinalReport);
            CutBeforeQueueing(u) && Sum(u.account.dead) + |Hosts(u.pushed)| == 0
  {
    assert [0][..0] == [] && Sum([]) == 0 && Sum([0]) == 0;
    assert Apply(c, t, FinalReport).account.dead == [0];
  }

  /** The sniffer can be cut off: in a scan of one target, the target is then neither dead
      nor queued. */
  lemma {:induction false} CutOffRun(c: Config, a: string)
    requires c.targets == {a} && c.max > 0 && c.icmpOnly && IsAddressText(a)
    ensures ValidRun(c, Init(c), CutRun(a)) && CutBeforeQueueing(After(c, CutRun(a)))
    ensures Sum(After(c, CutRun(a)).account.dead) + |Hosts(After(c, CutRun(a)).pushed)| == 0
  {
    CutStates(c, a);
    var s1 := Apply(c, Init(c), Packet(a));
    var s2 := Apply(c, s1, Send);
    var s3 := Apply(c, s2, StopSniffer);
    CutReport(c, a, s3);
    hide Apply, Enabled, Init, Sum, Hosts, CutBeforeQueueing, IsAddressText;
    RunCons(c, s3, FinalReport, []);
    RunCons(c, s2, StopSniffer, [FinalReport]);
    RunCons(c, s1, Send, [StopSniffer, FinalReport]);
    RunCons(c, Init(c), Packet(a), [Send, StopSniffer, FinalReport]);
    assert [FinalReport] + [] == [FinalReport];
    assert [StopSniffer] + [FinalReport] == [StopSniffer, FinalReport];
    assert [Send] + [StopSniffer, FinalReport] == [Send, StopSniffer, FinalReport];
    assert [Packet(a)] + [Send, StopSniffer, FinalReport] == CutRun(a);
  }

  /** At every moment of an ICMP scan before the final report, the counts sent so
      far account for whole batches, minus what has been considered alive; and
      nothing beyond the limit is ever considered alive. */
  lemma {:induction false} ReportsTelescope(c: Config, steps: seq<Step>)
    requires c.max > 0 && c.icmpOnly && ValidRun(c, Init(c), steps)
    requires var p := After(c, steps).point; !p.Reported? && !p.Done?
    ensures var s := After(c, steps);
            var considered := if s.account.handled then c.max else s.account.prev;
            && Sum(s.account.dead) == BATCH * |s.account.dead| - considered
            && s.account.remaining == |c.targets| - BATCH * |s.account.dead|
            && 0 <= considered <= Min(|s.alive|, c.max)
  {
    InvAfter(c, steps);
  }

  /** At every moment, the hosts pushed are the first `max` distinct targets found,
      in order of discovery, except the one the sniffer is still working on; and
      between packets the counter is the size of the alive table and the flag says
      whether the limit is reached. */
  lemma {:induction false} LimitStateMachine(c: Config, steps: seq<Step>)
    requires c.max > 0 && ValidRun(c, Init(c), steps)
    ensures var s := After(c, steps);
            var handled := if s.phase.Added? || s.phase.Counted? then |s.found| - 1 else |s.found|;
            && 0 <= handled && Hosts(s.pushed) == s.found[..Min(handled, c.max)]
            && (set i | 0 <= i < |s.found| :: s.found[i]) <= s.alive <= c.targets
            && (forall i, j :: 0 <= i < j < |s.found| ==> s.found[i] != s.found[j])
            && |s.found| == |s.alive|
            && (s.phase.Listening? ==> s.count == |s.alive| && (s.flag <==> s.count >= c.max))
  {
    InvAfter(c, steps);
    PushedHosts(c, After(c, steps));
  }

  /** At every moment, what the consumer took, followed by what is still queued, is
      what was pushed; the finish signal comes once, after every host; and when the
      consumer sees it, it has received exactly the queued hosts, nothing will be
      pushed any more, and the number it reports as not scanned is the number of
      counted hosts it did not receive. */
  lemma {:induction false} QueueProtocol(c: Config, steps: seq<Step>)
    requires c.max > 0 && ValidRun(c, Init(c), steps)
    ensures var s := After(c, steps);
            && s.pushed == s.received + (if s.finished then [FINISHED] else []) + Delivery(s.queue)
            && (forall i :: 0 <= i < |s.pushed| && s.pushed[i] == FINISHED ==> i == |s.pushed| - 1 && s.point.Done?)
            && FINISHED !in s.received
    ensures var s := After(c, steps);
            s.finished ==>
              && s.queue == [] && !s.running && s.point.Done?
              && s.received == Hosts(s.pushed)
              && s.notScanned == (if s.flag && s.count > |s.received| then Some(s.count - |s.received|) else None)
              && (s.phase.Listening? ==>
                    s.notScanned == (if |s.found| > |s.received| then Some(|s.found| - |s.received|) else None))
  {
    hide AccountInv, Hosts, Delivery;
    InvAfter(c, steps);
    FinishedIsNoAddress();
    var s := After(c, steps);
    PushedHosts(c, s);
    assert forall i :: 0 <= i < |Queued(c, s)| ==> s.pushed[i] == s.found[i];
    assert forall i :: 0 <= i < |s.received| ==> s.received[i] == s.pushed[i];
  }
}
