/**
 Claims on the databases of a Redis server: any number of clients open, use, reset and
 delete knowledge base handles at the same time. Every step is one Redis command.
 */
module KbClaims {

  /** A database: the hash that lists the claimed databases, and the items. The hash is
      looked up in whatever database a connection has selected. */
  datatype Db = Db(index: set<nat>, items: map<string, string>)

  /** Where a handle is in the code:
      Probing in the loop over the indices, on the way to a new handle or, once that
      failed, to the flush of its clean-up; Claimed and Selected behind the claim and the
      SELECT; Ready and in use; Lost without a connection; Reselecting in a new one;
      Flushed and Releasing in the deletion; Gone when it is freed. */
  datatype Phase =
    | Probing(next: nat, cleanup: bool)
    | Claimed(cleanup: bool)
    | Selected(cleanup: bool)
    | Ready
    | Lost
    | Reselecting
    | Flushed
    | Releasing
    | Gone

  /** A handle: the database it owns, or 0; the database its connection has selected; and
      what was stored through it. */
  datatype Handle = Handle(db: nat, selected: nat, phase: Phase, written: map<string, string>)

  datatype State = State(dbs: seq<Db>, handles: seq<Handle>)

  datatype Step =
    | Open
    | Probe(h: nat)
    | Select(h: nat)
    | Flush(h: nat)
    | Write(h: nat, name: string, value: string)
    | Reset(h: nat)
    | Reconnect(h: nat)
    | Delete(h: nat)
    | SelectZero(h: nat)
    | Release(h: nat)

  function Fresh(cleanup: bool): Handle {
    Handle(0, 0, Probing(1, cleanup), map[])
  }

  predicate Enabled(s: State, step: Step) {
    step.Open? ||
    (step.h < |s.handles| &&
     var h := s.handles[step.h];
     h.selected < |s.dbs| &&
     match step
     case Open => true
     case Probe(_) => h.phase.Probing?
     case Select(_) => h.phase.Claimed? || h.phase.Reselecting?
     case Flush(_) => h.phase.Selected?
     case Write(_, _, _) => h.phase.Ready?
     case Reset(_) => h.phase.Ready?
     case Reconnect(_) => h.phase.Lost?
     case Delete(_) => h.phase.Ready?
     case SelectZero(_) => h.phase.Flushed?
     case Release(_) => h.phase.Releasing?)
  }

  /** HSETNX, FLUSHDB and HDEL work on the database that is selected. */
  function SetIndex(s: State, d: nat, index: set<nat>): State
    requires d < |s.dbs|
  {
    s.(dbs := s.dbs[d := s.dbs[d].(index := index)])
  }

  function SetItems(s: State, d: nat, items: map<string, string>): State
    requires d < |s.dbs|
  {
    s.(dbs := s.dbs[d := s.dbs[d].(items := items)])
  }

  function FlushDb(s: State, d: nat): State
    requires d < |s.dbs|
  {
    s.(dbs := s.dbs[d := Db({}, map[])])
  }

  function SetHandle(s: State, k: nat, h: Handle): State
    requires k < |s.handles|
  {
    s.(handles := s.handles[k := h])
  }

  function Apply(s: State, step: Step): State
    requires Enabled(s, step)
  {
    if step.Open? then s.(handles := s.handles + [Fresh(false)])
    else
      var k := step.h;
      var h := s.handles[k];
      match step
      case Open => s
      case Probe(_) =>
        if h.phase.next < |s.dbs| then
          if h.phase.next in s.dbs[h.selected].index then
            SetHandle(s, k, h.(phase := Probing(h.phase.next + 1, h.phase.cleanup)))
          else
            SetHandle(SetIndex(s, h.selected, s.dbs[h.selected].index + {h.phase.next}), k,
                      h.(db := h.phase.next, phase := Claimed(h.phase.cleanup)))
        else if h.phase.cleanup then SetHandle(s, k, h.(phase := Gone))
        else SetHandle(s, k, Fresh(true))
      case Select(_) =>
        SetHandle(s, k, h.(selected := h.db,
                           phase := if h.phase.Claimed? then Selected(h.phase.cleanup) else Ready))
      case Flush(_) =>
        SetHandle(FlushDb(s, h.selected), k, h.(phase := if h.phase.cleanup then Flushed else Ready, written := map[]))
      case Write(_, name, value) =>
        SetHandle(SetItems(s, h.selected, s.dbs[h.selected].items[name := value]), k,
                  h.(written := h.written[name := value]))
      case Reset(_) => SetHandle(s, k, h.(phase := Lost))
      case Reconnect(_) =>
        SetHandle(s, k, h.(selected := 0, phase := if h.db == 0 then Probing(1, false) else Reselecting))
      case Delete(_) => SetHandle(FlushDb(s, h.selected), k, h.(phase := Flushed))
      case SelectZero(_) => SetHandle(s, k, h.(selected := 0, phase := Releasing))
      case Release(_) =>
        SetHandle(SetIndex(s, h.selected, s.dbs[h.selected].index - {h.db}), k, h.(phase := Gone))
  }

  // ------------------------------------------------------------------------- Runs

  predicate ValidRun(s: State, steps: seq<Step>)
    decreases |steps|
  {
    steps == [] || (Enabled(s, steps[0]) && ValidRun(Apply(s, steps[0]), steps[1..]))
  }

  function Exec(s: State, steps: seq<Step>): State
    requires ValidRun(s, steps)
    decreases |steps|
  {
    if steps == [] then s else Exec(Apply(s, steps[0]), steps[1..])
  }

  /** A server with any contents and any claims of others, and no handle yet. */
  predicate Init(s: State) {
    |s.dbs| > 0 && s.handles == []
  }

  // -------------------------------------------------------------------- Invariant

  /** The handle owns its database. */
  predicate Owns(h: Handle) {
    !h.phase.Probing? && !h.phase.Gone?
  }

  predicate HandleInv(dbs: seq<Db>, h: Handle) {
    && |dbs| > 0
    && (Owns(h) ==> 1 <= h.db < |dbs|)
    && match h.phase
       case Probing(next, _) => h.db == 0 && h.selected == 0 && next >= 1
       case Claimed(_) => h.selected == 0
       case Selected(_) => h.selected == h.db
       case Ready => h.selected == h.db && dbs[h.db].items == h.written
       case Lost => dbs[h.db].items == h.written
       case Reselecting => h.selected == 0 && dbs[h.db].items == h.written
       case Flushed => h.selected == h.db && dbs[h.db].items == map[]
       case Releasing => h.selected == 0 && dbs[h.db].items == map[]
       case Gone => true
  }

  predicate OwnedBySome(handles: seq<Handle>, d: nat) {
    exists k :: 0 <= k < |handles| && Owns(handles[k]) && handles[k].db == d
  }

  predicate NoSharing(handles: seq<Handle>) {
    forall j, k :: 0 <= j < k < |handles| && Owns(handles[j]) && Owns(handles[k]) ==> handles[j].db != handles[k].db
  }

  /** The claims in the management database are those of others and those of the handles. */
  ghost predicate ClaimsInv(others: set<nat>, s: State) {
    && |s.dbs| > 0
    && (forall d :: d in s.dbs[0].index <==> d in others || OwnedBySome(s.handles, d))
    && (forall d :: d in others ==> !OwnedBySome(s.handles, d))
  }

  ghost predicate Inv(start: State, s: State) {
    && |start.dbs| > 0 && |s.dbs| == |start.dbs|
    && (forall k :: 0 <= k < |s.handles| ==> HandleInv(s.dbs, s.handles[k]))
    && NoSharing(s.handles)
    && ClaimsInv(start.dbs[0].index, s)
    && s.dbs[0].items == start.dbs[0].items
  }

  // ------------------------------------------------- What every step does to claims

  lemma {:induction false} SameOwners(handles: seq<Handle>, k: nat, h: Handle, d: nat)
    requires k < |handles| && Owns(h) == Owns(handles[k]) && (Owns(h) ==> h.db == handles[k].db)
    ensures OwnedBySome(handles[k := h], d) <==> OwnedBySome(handles, d)
  {
    var after := handles[k := h];
    if OwnedBySome(handles, d) {
      var j :| 0 <= j < |handles| && Owns(handles[j]) && handles[j].db == d;
      assert Owns(after[j]) && after[j].db == d;
    }
    if OwnedBySome(after, d) {
      var j :| 0 <= j < |after| && Owns(after[j]) && after[j].db == d;
      assert Owns(handles[j]) && handles[j].db == d;
    }
  }

  /** A step of a handle that keeps its claim and changes at most its own database. */
  lemma {:induction false} StepOfOwner(start: State, s: State, k: nat, h: Handle, dbs: seq<Db>)
    requires Inv(start, s) && k < |s.handles|
    requires Owns(h) == Owns(s.handles[k]) && (Owns(h) ==> h.db == s.handles[k].db)
    requires dbs == s.dbs || (Owns(h) && |dbs| == |s.dbs| && dbs == s.dbs[h.db := dbs[h.db]])
    requires HandleInv(dbs, h)
    ensures Inv(start, State(dbs, s.handles[k := h]))
  {
    var after := s.handles[k := h];
    forall d: nat
      ensures OwnedBySome(after, d) <==> OwnedBySome(s.handles, d)
    {
      SameOwners(s.handles, k, h, d);
    }
    forall j | 0 <= j < |after|
      ensures HandleInv(dbs, after[j])
    {
      if j != k {
        assert HandleInv(s.dbs, s.handles[j]);
      }
    }
  }

  /** A claim: the index was free, so nobody else owns the database. */
  lemma {:induction false} StepOfClaim(start: State, s: State, k: nat)
    requires Inv(start, s) && k < |s.handles| && s.handles[k].phase.Probing?
    requires s.handles[k].phase.next < |s.dbs| && s.handles[k].phase.next !in s.dbs[0].index
    ensures Inv(start, Apply(s, Probe(k)))
  {
    var h, n := s.handles[k], s.handles[k].phase.next;
    assert HandleInv(s.dbs, h);
    var t := Apply(s, Probe(k));
    forall d: nat
      ensures OwnedBySome(t.handles, d) <==> OwnedBySome(s.handles, d) || d == n
    {
      ClaimedOwners(s.handles, k, t.handles[k], d);
    }
    forall j | 0 <= j < |t.handles|
      ensures HandleInv(t.dbs, t.handles[j])
      ensures j != k && Owns(t.handles[j]) ==> t.handles[j].db != n
    {
      assert HandleInv(s.dbs, s.handles[j]);
      if j != k && Owns(t.handles[j]) {
        assert OwnedBySome(s.handles, t.handles[j].db);
      }
    }
  }

  lemma {:induction false} ClaimedOwners(handles: seq<Handle>, k: nat, h: Handle, d: nat)
    requires k < |handles| && !Owns(handles[k]) && Owns(h)
    ensures OwnedBySome(handles[k := h], d) <==> OwnedBySome(handles, d) || d == h.db
  {
    var after := handles[k := h];
    if OwnedBySome(handles, d) {
      var j :| 0 <= j < |handles| && Owns(handles[j]) && handles[j].db == d;
      assert Owns(after[j]) && after[j].db == d;
    }
    if d == h.db {
      assert Owns(after[k]) && after[k].db == d;
    }
    if OwnedBySome(after, d) && d != h.db {
      var j :| 0 <= j < |after| && Owns(after[j]) && after[j].db == d;
      assert Owns(handles[j]) && handles[j].db == d;
    }
  }

  /** A release: nobody else owned the database, so the claim has no owner left. */
  lemma {:induction false} StepOfRelease(start: State, s: State, k: nat)
    requires Inv(start, s) && Enabled(s, Release(k))
    ensures Inv(start, Apply(s, Release(k)))
  {
    var h := s.handles[k];
    assert HandleInv(s.dbs, h);
    var t := Apply(s, Release(k));
    forall d: nat
      ensures OwnedBySome(t.handles, d) <==> OwnedBySome(s.handles, d) && d != h.db
    {
      ReleasedOwners(s.handles, k, t.handles[k], d);
    }
    assert OwnedBySome(s.handles, h.db);
    forall j | 0 <= j < |t.handles|
      ensures HandleInv(t.dbs, t.handles[j])
    {
      assert HandleInv(s.dbs, s.handles[j]);
    }
  }

  lemma {:induction false} ReleasedOwners(handles: seq<Handle>, k: nat, h: Handle, d: nat)
    requires k < |handles| && Owns(handles[k]) && !Owns(h) && NoSharing(handles)
    ensures OwnedBySome(handles[k := h], d) <==> OwnedBySome(handles, d) && d != handles[k].db
  {
    var after := handles[k := h];
    if OwnedBySome(handles, d) && d != handles[k].db {
      var j :| 0 <= j < |handles| && Owns(handles[j]) && handles[j].db == d;
      assert Owns(after[j]) && after[j].db == d;
    }
    if OwnedBySome(after, d) {
      var j :| 0 <= j < |after| && Owns(after[j]) && after[j].db == d;
      assert Owns(handles[j]) && handles[j].db == d && j != k;
    }
  }

  lemma {:induction false} StepOfOpen(start: State, s: State)
    requires Inv(start, s)
    ensures Inv(start, Apply(s, Open))
  {
    var t := Apply(s, Open);
    forall d: nat
      ensures OwnedBySome(t.handles, d) <==> OwnedBySome(s.handles, d)
    {
      if OwnedBySome(s.handles, d) {
        var j :| 0 <= j < |s.handles| && Owns(s.handles[j]) && s.handles[j].db == d;
        assert Owns(t.handles[j]) && t.handles[j].db == d;
      }
    }
  }

  /** Steps that change the handle and perhaps its database, but no claim. */
  lemma {:induction false} OtherSteps(start: State, s: State, step: Step)
    requires Inv(start, s) && Enabled(s, step) && !step.Open? && !step.Release? && !step.Probe?
    ensures Inv(start, Apply(s, step))
  {
    var k, h, t := step.h, s.handles[step.h], Apply(s, step);
    assert HandleInv(s.dbs, h);
    StepOfOwner(start, s, k, t.handles[k], t.dbs);
  }

  lemma {:induction false} ProbeStep(start: State, s: State, k: nat)
    requires Inv(start, s) && Enabled(s, Probe(k))
    ensures Inv(start, Apply(s, Probe(k)))
  {
    var h, t := s.handles[k], Apply(s, Probe(k));
    assert HandleInv(s.dbs, h);
    if h.phase.next < |s.dbs| && h.phase.next !in s.dbs[0].index {
      StepOfClaim(start, s, k);
    } else {
      StepOfOwner(start, s, k, t.handles[k], t.dbs);
    }
  }

  lemma {:induction false} StepKeepsInv(start: State, s: State, step: Step)
    requires Inv(start, s) && Enabled(s, step)
    ensures Inv(start, Apply(s, step))
  {
    hide Inv, Apply, Enabled;
    match step
    case Open => StepOfOpen(start, s);
    case Probe(k) => ProbeStep(start, s, k);
    case Release(k) => StepOfRelease(start, s, k);
    case _ => OtherSteps(start, s, step);
  }

  lemma {:induction false} RunKeepsInv(start: State, s: State, steps: seq<Step>)
    requires Inv(start, s) && ValidRun(s, steps)
    ensures Inv(start, Exec(s, steps))
    decreases |steps|
  {
    hide Inv, Apply, Enabled;
    if steps != [] {
      StepKeepsInv(start, s, steps[0]);
      RunKeepsInv(start, Apply(s, steps[0]), steps[1..]);
    }
  }

  lemma {:induction false} InitInv(s: State)
    requires Init(s)
    ensures Inv(s, s)
  {
  }

  // --------------------------------------------------------------- Over every run

  /** Whatever the clients do and however their commands interleave: no two handles own
      the same database, every owned index is in 1..max-1 and claimed in the management
      database, no other claim appears or disappears, and the claim on 0 is never made. */
  lemma {:induction false} ClaimsAreExclusive(start: State, steps: seq<Step>)
    requires Init(start) && ValidRun(start, steps)
    ensures var s := Exec(start, steps);
            && |s.dbs| == |start.dbs|
            && NoSharing(s.handles)
            && (forall k :: 0 <= k < |s.handles| && Owns(s.handles[k]) ==> 1 <= s.handles[k].db < |s.dbs|)
            && (forall d :: d in s.dbs[0].index <==> d in start.dbs[0].index || OwnedBySome(s.handles, d))
            && (forall d :: d in start.dbs[0].index ==> !OwnedBySome(s.handles, d))
            && (0 in s.dbs[0].index <==> 0 in start.dbs[0].index)
  {
    InitInv(start);
    RunKeepsInv(start, start, steps);
    var s := Exec(start, steps);
    forall k | 0 <= k < |s.handles|
      ensures HandleInv(s.dbs, s.handles[k])
    {
    }
  }

  /** What the writes of a run through a handle leave: for every name the value that was
      written last. */
  function WrittenBy(steps: seq<Step>, k: nat): map<string, string> {
    if steps == [] then map[]
    else
      var front, last := WrittenBy(steps[..|steps| - 1], k), steps[|steps| - 1];
      if last.Write? && last.h == k then front[last.name := last.value] else front
  }

  lemma {:induction false} ExecSnoc(s: State, steps: seq<Step>)
    requires steps != []
    ensures var n := |steps| - 1;
            && (ValidRun(s, steps) ==>
                  && ValidRun(s, steps[..n]) && Enabled(Exec(s, steps[..n]), steps[n])
                  && Exec(s, steps) == Apply(Exec(s, steps[..n]), steps[n]))
    decreases |steps|
  {
    hide Apply, Enabled;
    var n := |steps| - 1;
    if ValidRun(s, steps) {
      if n == 0 {
        assert steps[..0] == [] && steps[1..] == [];
      } else {
        ExecSnoc(Apply(s, steps[0]), steps[1..]);
        assert steps[..n][1..] == steps[1..][..n - 1] && steps[..n][0] == steps[0];
      }
    }
  }

  /** What the handles have on record is what the run wrote; nothing before they are ready. */
  ghost predicate OnRecord(steps: seq<Step>, s: State) {
    && (forall k :: 0 <= k < |s.handles| ==>
          && s.handles[k].written == WrittenBy(steps, k)
          && (s.handles[k].phase.Probing? || s.handles[k].phase.Claimed? || s.handles[k].phase.Selected? ==>
                s.handles[k].written == map[]))
    && forall k: nat :: k >= |s.handles| ==> WrittenBy(steps, k) == map[]
  }

  lemma {:induction false} WrittenSnoc(steps: seq<Step>, step: Step, k: nat)
    ensures WrittenBy(steps + [step], k) ==
            if step.Write? && step.h == k then WrittenBy(steps, k)[step.name := step.value] else WrittenBy(steps, k)
  {
    assert (steps + [step])[..|steps|] == steps;
  }

  lemma {:induction false} RecordKept(start: State, steps: seq<Step>, s: State, step: Step)
    requires Inv(start, s) && Enabled(s, step) && OnRecord(steps, s)
    ensures OnRecord(steps + [step], Apply(s, step))
  {
    var t := Apply(s, step);
    assert |t.handles| == |s.handles| + if step.Open? then 1 else 0;
    forall k | 0 <= k < |t.handles|
      ensures t.handles[k].written == WrittenBy(steps + [step], k)
      ensures t.handles[k].phase.Probing? || t.handles[k].phase.Claimed? || t.handles[k].phase.Selected? ==>
                t.handles[k].written == map[]
    {
      WrittenSnoc(steps, step, k);
      if k < |s.handles| {
        assert HandleInv(s.dbs, s.handles[k]);
        RecordOf(s, step, k);
      }
    }
    forall k: nat | k >= |t.handles|
      ensures WrittenBy(steps + [step], k) == map[]
    {
      WrittenSnoc(steps, step, k);
    }
  }

  /** What one step does to the record of one handle. */
  lemma {:induction false} RecordOf(s: State, step: Step, k: nat)
    requires Enabled(s, step) && k < |s.handles| && HandleInv(s.dbs, s.handles[k])
    requires s.handles[k].phase.Probing? || s.handles[k].phase.Claimed? || s.handles[k].phase.Selected? ==>
               s.handles[k].written == map[]
    ensures var t := Apply(s, step);
            && k < |t.handles|
            && t.handles[k].written == (if step.Write? && step.h == k then s.handles[k].written[step.name := step.value]
                                        else s.handles[k].written)
            && (t.handles[k].phase.Probing? || t.handles[k].phase.Claimed? || t.handles[k].phase.Selected? ==>
                  t.handles[k].written == map[])
  {
  }

  lemma {:induction false} RunOnRecord(start: State, steps: seq<Step>)
    requires Init(start) && ValidRun(start, steps)
    ensures OnRecord(steps, Exec(start, steps)) && Inv(start, Exec(start, steps))
    decreases |steps|
  {
    if steps == [] {
      InitInv(start);
    } else {
      hide Inv, Apply, Enabled, OnRecord, WrittenBy;
      var n := |steps| - 1;
      ExecSnoc(start, steps);
      RunOnRecord(start, steps[..n]);
      RecordKept(start, steps[..n], Exec(start, steps[..n]), steps[n]);
      StepKeepsInv(start, Exec(start, steps[..n]), steps[n]);
      assert steps == steps[..n] + [steps[n]];
    }
  }

  /** A handle in use reads, for every name, the value that was written last through it, and
      nothing that others wrote or that was there before; when it is deleted its database is
      empty before it is released; and the management database is neither flushed nor
      written. */
  lemma {:induction false} HandlesAreIsolated(start: State, steps: seq<Step>)
    requires Init(start) && ValidRun(start, steps)
    ensures var s := Exec(start, steps);
            && |s.dbs| == |start.dbs| && s.dbs[0].items == start.dbs[0].items
            && (forall k :: 0 <= k < |s.handles| && s.handles[k].phase.Ready? ==>
                  var h := s.handles[k]; h.selected < |s.dbs| && s.dbs[h.selected].items == WrittenBy(steps, k))
            && (forall k :: 0 <= k < |s.handles| && s.handles[k].phase.Releasing? ==>
                  var h := s.handles[k]; h.db < |s.dbs| && s.dbs[h.db].items == map[])
  {
    hide WrittenBy;
    RunOnRecord(start, steps);
    var s := Exec(start, steps);
    forall k | 0 <= k < |s.handles|
      ensures HandleInv(s.dbs, s.handles[k])
    {
    }
  }

  /** The handle is being deleted, or belongs to a kb_new that failed. */
  predicate OnTheWayOut(h: Handle) {
    match h.phase
    case Probing(_, cleanup) => cleanup
    case Claimed(cleanup) => cleanup
    case Selected(cleanup) => cleanup
    case Ready => false
    case Lost => false
    case Reselecting => false
    case Flushed => true
    case Releasing => true
    case Gone => true
  }

  lemma {:induction false} OutStep(s: State, step: Step, k: nat)
    requires Enabled(s, step) && k < |s.handles| && OnTheWayOut(s.handles[k])
    ensures k < |Apply(s, step).handles| && OnTheWayOut(Apply(s, step).handles[k])
  {
  }

  /** Such a handle is never used again. */
  lemma {:induction false} NoWayBack(s: State, steps: seq<Step>, k: nat)
    requires ValidRun(s, steps) && k < |s.handles| && OnTheWayOut(s.handles[k])
    ensures k < |Exec(s, steps).handles| && OnTheWayOut(Exec(s, steps).handles[k])
    decreases |steps|
  {
    hide Apply, Enabled, OnTheWayOut;
    if steps != [] {
      OutStep(s, steps[0], k);
      NoWayBack(Apply(s, steps[0]), steps[1..], k);
    }
  }

  /** When no handle owns a database any more, the claims are those of the beginning. */
  lemma {:induction false} DeletionReleases(start: State, steps: seq<Step>)
    requires Init(start) && ValidRun(start, steps)
    requires forall k :: 0 <= k < |Exec(start, steps).handles| ==> !Owns(Exec(start, steps).handles[k])
    ensures var s := Exec(start, steps); |s.dbs| == |start.dbs| && s.dbs[0].index == start.dbs[0].index
  {
    ClaimsAreExclusive(start, steps);
    var s := Exec(start, steps);
    assert forall d :: !OwnedBySome(s.handles, d);
  }

  /** The handle is in use, or between losing its connection and using the new one. */
  predicate InUse(h: Handle) {
    h.phase.Ready? || h.phase.Lost? || h.phase.Reselecting?
  }

  lemma {:induction false} StepKeepsDatabase(start: State, s: State, step: Step, k: nat)
    requires Inv(start, s) && Enabled(s, step) && step != Delete(k)
    requires k < |s.handles| && InUse(s.handles[k])
    ensures var t := Apply(s, step);
            k < |t.handles| && InUse(t.handles[k]) && t.handles[k].db == s.handles[k].db
  {
    assert HandleInv(s.dbs, s.handles[k]);
  }

  /** Until its deletion a handle keeps its database over any number of lost connections,
      so reconnecting never claims a second one. */
  lemma {:induction false} ReconnectKeepsDatabase(start: State, s: State, steps: seq<Step>, k: nat)
    requires Inv(start, s) && ValidRun(s, steps) && Delete(k) !in steps
    requires k < |s.handles| && InUse(s.handles[k])
    ensures var t := Exec(s, steps);
            k < |t.handles| && InUse(t.handles[k]) && t.handles[k].db == s.handles[k].db
    decreases |steps|
  {
    hide Inv, Apply, Enabled;
    if steps != [] {
      StepKeepsInv(start, s, steps[0]);
      StepKeepsDatabase(start, s, steps[0], k);
      ReconnectKeepsDatabase(start, Apply(s, steps[0]), steps[1..], k);
    }
  }

  // ---------------------------------------------------------------- The claim loop

  /** The least index from i on that is not claimed, or n. */
  function FirstFree(index: set<nat>, i: nat, n: nat): (d: nat)
    requires i <= n
    ensures i <= d <= n
    ensures forall j :: i <= j < d ==> j in index
    ensures d < n ==> d !in index
    decreases n - i
  {
    if i == n || i !in index then i else FirstFree(index, i + 1, n)
  }

  lemma {:induction false} ExecAppend(s: State, steps: seq<Step>, step: Step)
    requires ValidRun(s, steps) && Enabled(Exec(s, steps), step)
    ensures ValidRun(s, steps + [step]) && Exec(s, steps + [step]) == Apply(Exec(s, steps), step)
    decreases |steps|
  {
    if steps == [] {
      assert steps + [step] == [step] && [step][1..] == [];
    } else {
      ExecAppend(Apply(s, steps[0]), steps[1..], step);
      assert (steps + [step])[0] == steps[0] && (steps + [step])[1..] == steps[1..] + [step];
    }
  }

  class Server {
    var state: State

    constructor (s: State)
      ensures state == s
    {
      state := s;
    }

    /** The loop over the indices, when no other client interferes: it is a run of the
        transition system and claims the least free index, if there is one. */
    method ClaimDatabase(k: nat) returns (ok: bool, ghost steps: seq<Step>)
      requires k < |state.handles| && (state.handles[k] == Fresh(false) || state.handles[k] == Fresh(true))
      requires |state.dbs| > 0
      modifies this
      ensures ValidRun(old(state), steps) && state == Exec(old(state), steps)
      ensures var free := FirstFree(old(state).dbs[0].index, 1, |old(state).dbs|);
              && (ok <==> free < |old(state).dbs|)
              && (ok ==> k < |state.handles| && state.handles[k].phase.Claimed? && state.handles[k].db == free)
      ensures !ok ==> state.dbs == old(state).dbs
    {
      ok, steps := false, [];
      while !ok && state.handles[k].phase.next < |state.dbs|
        invariant |state.dbs| == |old(state).dbs| && k < |state.handles|
        invariant ValidRun(old(state), steps) && state == Exec(old(state), steps)
        invariant !ok ==>
          && state.dbs == old(state).dbs && state.handles[k].phase.Probing?
          && state.handles[k].db == 0 && state.handles[k].selected == 0
          && 1 <= state.handles[k].phase.next <= |state.dbs|
          && FirstFree(state.dbs[0].index, 1, |state.dbs|) ==
             FirstFree(state.dbs[0].index, state.handles[k].phase.next, |state.dbs|)
        invariant ok ==>
          && state.handles[k].phase.Claimed?
          && state.handles[k].db == FirstFree(old(state).dbs[0].index, 1, |old(state).dbs|) < |state.dbs|
        decreases !ok, if state.handles[k].phase.Probing? then |state.dbs| - state.handles[k].phase.next else 0
      {
        ExecAppend(old(state), steps, Probe(k));
        state, steps := Apply(state, Probe(k)), steps + [Probe(k)];
        ok := state.handles[k].phase.Claimed?;
      }
    }
  }
}
