/**
 The methods of boreas that update the shared scanner state. Each method is tied to
 the transition system of module Boreas: it does what the matching steps do, so the
 theorems about runs are about it.
 */
module BoreasScanner {
  import opened Text
  import opened Boreas

  /** The hash tables and scan restrictions of scanner_t, and the queue. */
  class Scanner {
    const config: Config
    var alive: set<string>
    var count: nat
    var reached: bool
    var queue: seq<string>
    /** The static variable of put_finish_signal_on_queue. */
    var finishQueued: bool

    /** The fields hold what the state of the transition system says. */
    ghost predicate Holds(s: State)
      reads this
    {
      && alive == s.alive && count == s.count && reached == s.flag && queue == s.queue
      && finishQueued == s.point.Done?
    }

    constructor (config: Config)
      ensures this.config == config
      ensures Holds(Init(config))
    {
      this.config := config;
      alive, count, reached, queue := {}, 0, false, [];
      finishQueued := false;
    }

    /** Counts an alive host, queues it unless the limit was reached, and notes that
        the limit is reached now. */
    method HandleScanRestrictions(addr: string, ghost s: State)
      requires s.running && s.phase == Added(addr) && Holds(s)
      modifies this`count, this`reached, this`queue
      ensures ValidRun(config, s, [Count, Push, Limit])
      ensures Holds(Exec(config, s, [Count, Push, Limit]))
    {
      ghost var s1 := Apply(config, s, Count);
      ghost var s2 := Apply(config, s1, Push);
      count := count + 1;
      if !reached {
        queue := Lpush(queue, addr);
      }
      if !reached && count == config.max {
        reached := true;
      }
      RunOfThree(config, s, Count, Push, Limit);
    }

    /** The decision at the end of the packet callback. */
    method GotPacket(addr: string, ghost s: State) returns (isNew: bool)
      requires s.running && s.phase.Listening? && IsAddressText(addr) && Holds(s)
      modifies this`alive, this`count, this`reached, this`queue
      ensures isNew == (addr in config.targets && addr !in old(alive))
      ensures ValidRun(config, s, PacketSteps(addr, isNew))
      ensures Holds(Exec(config, s, PacketSteps(addr, isNew)))
      ensures Exec(config, s, PacketSteps(addr, isNew)).phase.Listening?
    {
      isNew := addr in config.targets && addr !in alive;
      ghost var s1 := Apply(config, s, Packet(addr));
      RunOfOne(config, s, Packet(addr));
      if isNew {
        alive := alive + {addr};
        HandleScanRestrictions(addr, s1);
        RunCons(config, s, Packet(addr), [Count, Push, Limit]);
        RunOfThree(config, s1, Count, Push, Limit);
      }
    }

    /** Takes the next entry from the queue: a host, the end of the scan, or nothing; an
        entry that is no host is dropped. */
    method GetHostFromQueue(isHost: string -> bool, ghost s: State)
      returns (host: Option<string>, finished: bool, notScanned: Option<int>)
      requires !s.finished && Holds(s)
      modifies this`queue
      ensures s.queue == [] ==> queue == [] && host.None? && !finished && notScanned.None?
      ensures s.queue != [] ==>
                var t := Apply(config, s, Pop);
                && Holds(t) && finished == t.finished
                && (finished ==> host.None? && notScanned == t.notScanned)
                && (!finished ==>
                      var entry := t.received[|s.received|];
                      && t.received == s.received + [entry] && notScanned.None?
                      && host == if isHost(entry) then Some(entry) else None)
    {
      host, finished, notScanned := None, false, None;
      if queue == [] {
        return;
      }
      var entry := Rlast(queue);
      queue := Rpop(queue);
      if entry == FINISHED {
        if reached && count - config.max != 0 {
          notScanned := Some(count - config.max);
        }
        finished := true;
      } else if isHost(entry) {
        host := Some(entry);
      }
    }

    /** Puts the finish signal on the queue, unless an earlier call did. The push and the
        reset of the connection behind it may fail; then a later call tries again. */
    method PutFinishSignalOnQueue(pushWorks: bool, resetWorks: bool, ghost s: State) returns (error: int)
      requires s.point.Reported? || s.point.Done?
      requires Holds(s)
      modifies this`queue, this`finishQueued
      ensures s.point.Done? ==> error == -1 && Holds(s)
      ensures s.point.Reported? ==>
                && error == (if !resetWorks then -3 else if !pushWorks then -2 else 0)
                && Holds(if pushWorks then Apply(config, s, PutFinish) else s)
    {
      error := 0;
      if finishQueued {
        error := -1;
      } else {
        if !pushWorks {
          error := -2;
        } else {
          queue := Lpush(queue, FINISHED);
          finishQueued := true;
        }
        if !resetWorks {
          error := -3;
        }
      }
    }
  }

  /** The steps one packet causes. */
  function PacketSteps(addr: string, isNew: bool): seq<Step> {
    if isNew then [Packet(addr), Count, Push, Limit] else [Packet(addr)]
  }

  lemma {:induction false} RunOfOne(c: Config, s: State, step: Step)
    requires Enabled(c, s, step)
    ensures ValidRun(c, s, [step]) && Exec(c, s, [step]) == Apply(c, s, step)
  {
    RunCons(c, s, step, []);
    assert [step] + [] == [step];
  }

  lemma {:induction false} RunOfThree(c: Config, s: State, a: Step, b: Step, d: Step)
    requires Enabled(c, s, a) && Enabled(c, Apply(c, s, a), b)
    requires Enabled(c, Apply(c, Apply(c, s, a), b), d)
    ensures ValidRun(c, s, [a, b, d])
    ensures Exec(c, s, [a, b, d]) == Apply(c, Apply(c, Apply(c, s, a), b), d)
  {
    var s1 := Apply(c, s, a);
    RunOfOne(c, Apply(c, s1, b), d);
    RunCons(c, s1, b, [d]);
    RunCons(c, s, a, [b, d]);
    assert [a] + [b, d] == [a, b, d] && [b] + [d] == [b, d];
  }
}
