/** Delivery of archival packages: a status for each transport, and the nightly job that delivers. */
module Delivery {
  import opened Collections

  datatype Status = Scheduled | Success | Failed

  /** How a transport's own delivery ends: normally, with a conflict error, or with any other exception. */
  datatype Outcome = Delivered | Raised | Conflict

  /** A registered transport, with the outcome its delivery has if it is called. */
  datatype Transport = Transport(name: string, enabled: bool, outcome: Outcome)

  type Statuses = map<string, Status>

  /** Adapters are registered under distinct names. */
  ghost predicate DistinctNames(ts: seq<Transport>) {
    forall i, j :: 0 <= i < j < |ts| ==> ts[i].name != ts[j].name
  }

  predicate IsScheduledWith(st: Statuses, name: string) {
    name in st && st[name] == Scheduled
  }

  ghost predicate IsScheduled(st: Statuses) {
    exists name :: IsScheduledWith(st, name)
  }

  predicate Due(st: Statuses, t: Transport) {
    t.enabled && IsScheduledWith(st, t.name)
  }

  // ----- scheduling -----

  predicate Marks(st: Statuses, name: string, force: bool) {
    force || name !in st
  }

  function ScheduleWith(st: Statuses, name: string, force: bool): Statuses {
    if Marks(st, name, force) then st[name := Scheduled] else st
  }

  function ScheduleAll(st: Statuses, ts: seq<Transport>, force: bool): Statuses {
    if ts == [] then st
    else
      var t, before := ts[|ts| - 1], ScheduleAll(st, ts[..|ts| - 1], force);
      if t.enabled then ScheduleWith(before, t.name, force) else before
  }

  /** The names marked as scheduled, in order. */
  function MarkedNames(st: Statuses, ts: seq<Transport>, force: bool): seq<string> {
    if ts == [] then []
    else
      var t, rest := ts[|ts| - 1], ts[..|ts| - 1];
      MarkedNames(st, rest, force) + (if t.enabled && Marks(st, t.name, force) then [t.name] else [])
  }

  ghost predicate HasEnabled(ts: seq<Transport>, name: string) {
    exists k :: 0 <= k < |ts| && ts[k].enabled && ts[k].name == name
  }

  lemma HasEnabledStep(ts: seq<Transport>, name: string)
    requires ts != []
    ensures HasEnabled(ts, name)
      <==> HasEnabled(ts[..|ts| - 1], name) || (ts[|ts| - 1].enabled && ts[|ts| - 1].name == name)
  {
    var n := |ts| - 1;
    if HasEnabled(ts[..n], name) {
      var k :| 0 <= k < n && ts[..n][k].enabled && ts[..n][k].name == name;
      assert ts[k].enabled && ts[k].name == name;
    }
    if HasEnabled(ts, name) {
      var k :| 0 <= k < |ts| && ts[k].enabled && ts[k].name == name;
      assert k < n ==> ts[..n][k].enabled && ts[..n][k].name == name;
    }
  }

  /** Scheduling marks exactly the enabled transports without a status, or all enabled ones when forced. */
  lemma {:induction false} SchedulingMarksExactly(st: Statuses, ts: seq<Transport>, force: bool, name: string)
    ensures var st' := ScheduleAll(st, ts, force);
      if HasEnabled(ts, name) && Marks(st, name, force) then IsScheduledWith(st', name)
      else (name in st' <==> name in st) && (name in st ==> st'[name] == st[name])
  {
    if ts != [] {
      SchedulingMarksExactly(st, ts[..|ts| - 1], force, name);
      HasEnabledStep(ts, name);
    }
  }

  /** Without naming a rule of marking: force schedules every enabled transport again, and without it
      only those are scheduled that have no status. */
  lemma SchedulesExactly(st: Statuses, ts: seq<Transport>, name: string)
    requires HasEnabled(ts, name)
    ensures name in ScheduleAll(st, ts, true) && ScheduleAll(st, ts, true)[name] == Scheduled
    ensures name in ScheduleAll(st, ts, false)
    ensures ScheduleAll(st, ts, false)[name] == if name in st then st[name] else Scheduled
  {
    SchedulingMarksExactly(st, ts, true, name);
    SchedulingMarksExactly(st, ts, false, name);
  }

  lemma {:induction false} MarkedOnce(st: Statuses, ts: seq<Transport>, force: bool, name: string)
    requires DistinctNames(ts)
    ensures multiset(MarkedNames(st, ts, force))[name]
       == if HasEnabled(ts, name) && Marks(st, name, force) then 1 else 0
  {
    if ts != [] {
      MarkedOnce(st, ts[..|ts| - 1], force, name);
      HasEnabledStep(ts, name);
    }
  }

  // ----- delivering -----

  /** The statuses, the transports called so far, and whether a conflict error ended the delivery. */
  datatype Progress = Progress(statuses: Statuses, called: seq<string>, aborted: bool)

  function DeliverWith(p: Progress, t: Transport): Progress {
    if p.aborted || !Due(p.statuses, t) then p
    else match t.outcome
      case Delivered => Progress(p.statuses[t.name := Success], p.called + [t.name], false)
      case Raised => Progress(p.statuses[t.name := Failed], p.called + [t.name], false)
      case Conflict => Progress(p.statuses, p.called + [t.name], true)
  }

  function DeliverAll(st: Statuses, ts: seq<Transport>): Progress {
    if ts == [] then Progress(st, [], false) else DeliverWith(DeliverAll(st, ts[..|ts| - 1]), ts[|ts| - 1])
  }

  lemma DeliverAllNext(st: Statuses, ts: seq<Transport>, i: nat)
    requires i < |ts|
    ensures DeliverAll(st, ts[..i + 1]) == DeliverWith(DeliverAll(st, ts[..i]), ts[i])
  {
    assert ts[..i + 1][..i] == ts[..i];
  }

  lemma {:induction false} OnceAborted(st: Statuses, ts: seq<Transport>, i: nat)
    requires i <= |ts| && DeliverAll(st, ts[..i]).aborted
    ensures DeliverAll(st, ts) == DeliverAll(st, ts[..i])
  {
    if i < |ts| {
      assert ts[..|ts| - 1][..i] == ts[..i];
      OnceAborted(st, ts[..|ts| - 1], i);
    } else {
      assert ts[..i] == ts;
    }
  }

  function DueNames(st: Statuses, ts: seq<Transport>): seq<string> {
    if ts == [] then []
    else DueNames(st, ts[..|ts| - 1]) + (if Due(st, ts[|ts| - 1]) then [ts[|ts| - 1].name] else [])
  }

  ghost predicate HasConflict(st: Statuses, ts: seq<Transport>) {
    exists k :: 0 <= k < |ts| && Due(st, ts[k]) && ts[k].outcome == Conflict
  }

  /** The statuses of transports that are not called stay as they are. */
  lemma {:induction false} OthersKeepStatus(st: Statuses, ts: seq<Transport>, name: string)
    requires forall k | 0 <= k < |ts| :: Due(st, ts[k]) ==> ts[k].name != name
    ensures var p := DeliverAll(st, ts);
      (name in p.statuses <==> name in st) && (name in st ==> p.statuses[name] == st[name])
  {
    if ts != [] {
      var n := |ts| - 1;
      OthersKeepStatus(st, ts[..n], name);
      if ts[n].name == name { assert !Due(st, ts[n]); }
    }
  }

  /** A delivery is aborted exactly when a transport that is due has a conflict. */
  lemma {:induction false} AbortsExactly(st: Statuses, ts: seq<Transport>)
    requires DistinctNames(ts)
    ensures DeliverAll(st, ts).aborted <==> HasConflict(st, ts)
  {
    if ts != [] {
      var n := |ts| - 1;
      AbortsExactly(st, ts[..n]);
      OthersKeepStatus(st, ts[..n], ts[n].name);
      if HasConflict(st, ts[..n]) {
        var k :| 0 <= k < n && Due(st, ts[..n][k]) && ts[..n][k].outcome == Conflict;
        assert Due(st, ts[k]);
      }
      if k :| 0 <= k < |ts| && Due(st, ts[k]) && ts[k].outcome == Conflict {
        assert k < n ==> Due(st, ts[..n][k]);
      }
    }
  }

  /** Without a conflict every transport that is due is called once, in order. */
  lemma {:induction false} DeliveryCallsDue(st: Statuses, ts: seq<Transport>)
    requires DistinctNames(ts) && !DeliverAll(st, ts).aborted
    ensures DeliverAll(st, ts).called == DueNames(st, ts)
  {
    if ts != [] {
      var n := |ts| - 1;
      DeliveryCallsDue(st, ts[..n]);
      OthersKeepStatus(st, ts[..n], ts[n].name);
    }
  }

  /** It ends with the status its outcome calls for. */
  lemma {:induction false} DeliveryRecordsOutcome(st: Statuses, ts: seq<Transport>, k: nat)
    requires DistinctNames(ts) && !DeliverAll(st, ts).aborted && k < |ts| && Due(st, ts[k])
    ensures ts[k].name in DeliverAll(st, ts).statuses
    ensures DeliverAll(st, ts).statuses[ts[k].name] == if ts[k].outcome == Delivered then Success else Failed
  {
    var n := |ts| - 1;
    if k == n {
      OthersKeepStatus(st, ts[..n], ts[n].name);
    } else {
      DeliveryRecordsOutcome(st, ts[..n], k);
    }
  }

  /** No enabled transport is left scheduled by a delivery that is not aborted. */
  lemma NoneLeftDue(st: Statuses, ts: seq<Transport>, k: nat)
    requires DistinctNames(ts) && k < |ts| && !DeliverAll(st, ts).aborted
    ensures !Due(DeliverAll(st, ts).statuses, ts[k])
  {
    if Due(st, ts[k]) { DeliveryRecordsOutcome(st, ts, k); } else { OthersKeepStatus(st, ts, ts[k].name); }
  }

  /** What is scheduled after a delivery is exactly what was scheduled for transports that are
      disabled or no longer registered. */
  lemma LeftScheduledExactly(st: Statuses, ts: seq<Transport>, name: string)
    requires DistinctNames(ts) && !DeliverAll(st, ts).aborted
    ensures IsScheduledWith(DeliverAll(st, ts).statuses, name) <==> IsScheduledWith(st, name) && !HasEnabled(ts, name)
  {
    if k :| 0 <= k < |ts| && ts[k].enabled && ts[k].name == name {
      NoneLeftDue(st, ts, k);
    } else {
      OthersKeepStatus(st, ts, name);
    }
  }

  lemma {:induction false} DueOnce(st: Statuses, ts: seq<Transport>, name: string)
    requires DistinctNames(ts)
    ensures multiset(DueNames(st, ts))[name] == if IsScheduledWith(st, name) && HasEnabled(ts, name) then 1 else 0
  {
    if ts != [] {
      DueOnce(st, ts[..|ts| - 1], name);
      HasEnabledStep(ts, name);
    }
  }

  // ----- the scheduler of one disposition -----

  function StatusesOf(annotation: Option<Statuses>): Statuses {
    match annotation case Some(st) => st case None => map[]
  }

  /** A delivery does not create a missing annotation. */
  function Redelivered(annotation: Option<Statuses>, ts: seq<Transport>): Option<Statuses> {
    match annotation case Some(st) => Some(DeliverAll(st, ts).statuses) case None => None
  }

  class DeliveryScheduler {
    var annotation: Option<Statuses>

    /** The transports whose delivery was called, in order. */
    ghost var called: seq<string>

    ghost function Current(): Statuses
      reads this
    {
      StatusesOf(annotation)
    }

    constructor (annotation: Option<Statuses>)
      ensures this.annotation == annotation && called == []
    {
      this.annotation, called := annotation, [];
    }

    method GetStatuses(createIfMissing: bool) returns (statuses: Statuses)
      modifies `annotation
      ensures statuses == Current() == old(Current())
      ensures annotation == if createIfMissing then Some(old(Current())) else old(annotation)
    {
      if annotation.None? && createIfMissing {
        annotation := Some(map[]);
      }
      statuses := match annotation case Some(st) => st case None => map[];
    }

    method Mark(name: string, status: Status)
      modifies `annotation
      ensures annotation == Some(old(Current())[name := status])
    {
      var statuses := GetStatuses(true);
      annotation := Some(statuses[name := status]);
    }

    method ScheduleDeliveryWith(name: string, force: bool)
      modifies `annotation
      ensures annotation == Some(ScheduleWith(old(Current()), name, force))
      ensures Current()
        == if force || name !in old(Current()) then old(Current())[name := Scheduled] else old(Current())
    {
      var statuses := GetStatuses(true);
      if force || name !in statuses {
        Mark(name, Scheduled);
      }
    }

    method ScheduleDelivery(transports: seq<Transport>, force: bool)
      modifies `annotation
      ensures Current() == ScheduleAll(old(Current()), transports, force)
      ensures annotation.None? ==>
        annotation == old(annotation) && forall k | 0 <= k < |transports| :: !transports[k].enabled
    {
      for i := 0 to |transports|
        invariant Current() == ScheduleAll(old(Current()), transports[..i], force)
        invariant annotation.None? ==> annotation == old(annotation) && forall k | 0 <= k < i :: !transports[k].enabled
      {
        assert transports[..i + 1][..i] == transports[..i];
        if !transports[i].enabled { continue; }
        ScheduleDeliveryWith(transports[i].name, force);
      }
      assert transports[..|transports|] == transports;
    }

    method IsScheduledForDelivery() returns (scheduled: bool)
      ensures scheduled <==> IsScheduled(Current())
    {
      var statuses: Statuses := match annotation case Some(st) => st case None => map[];
      scheduled := Scheduled in statuses.Values;
      if name :| name in statuses && statuses[name] == Scheduled {
        assert IsScheduledWith(Current(), name);
      }
    }

    method IsScheduledForDeliveryWith(name: string) returns (scheduled: bool)
      ensures scheduled <==> IsScheduledWith(Current(), name)
    {
      var statuses: Statuses := match annotation case Some(st) => st case None => map[];
      scheduled := name in statuses && statuses[name] == Scheduled;
    }

    method Deliver(transports: seq<Transport>) returns (raised: bool)
      modifies this
      ensures var p := DeliverAll(old(Current()), transports);
        annotation == Redelivered(old(annotation), transports) && raised == p.aborted
        && called == old(called) + p.called
    {
      ghost var before := Current();
      for i := 0 to |transports|
        invariant old(called) <= called
        invariant annotation == Redelivered(old(annotation), transports[..i])
        invariant DeliverAll(before, transports[..i]) == Progress(Current(), called[|old(called)|..], false)
      {
        DeliverAllNext(before, transports, i);
        var transport := transports[i];
        if !transport.enabled { continue; }
        var scheduled := IsScheduledForDeliveryWith(transport.name);
        if !scheduled { continue; }
        called := called + [transport.name];
        match transport.outcome {
          case Delivered => Mark(transport.name, Success);
          case Conflict =>
            OnceAborted(before, transports, i + 1);
            return true;
          case Raised => Mark(transport.name, Failed);
        }
      }
      assert transports[..|transports|] == transports;
      raised := false;
    }
  }

  // ----- runs -----

  /** What happens to one disposition; each event is a transaction of its own. A delivery that no
      transport aborts can still meet a conflict when it is committed, after all calls were made. */
  datatype Event =
    | Schedule(transports: seq<Transport>, force: bool)
    | ScheduleOne(name: string, force: bool)
    | Deliver(transports: seq<Transport>, commits: bool)

  /** The committed statuses, the marks and calls of committed transactions, and the calls made in
      deliveries that a conflict aborted, in a transport or at the commit. */
  datatype History = History(statuses: Statuses, marks: seq<string>, calls: seq<string>, wasted: seq<string>)

  ghost predicate Legal(e: Event) {
    match e
    case Schedule(ts, _) => DistinctNames(ts)
    case ScheduleOne(_, _) => true
    case Deliver(ts, _) => DistinctNames(ts)
  }

  function Apply(h: History, e: Event): History {
    match e
    case Schedule(ts, force) =>
      h.(statuses := ScheduleAll(h.statuses, ts, force), marks := h.marks + MarkedNames(h.statuses, ts, force))
    case ScheduleOne(name, force) =>
      if Marks(h.statuses, name, force)
      then h.(statuses := h.statuses[name := Scheduled], marks := h.marks + [name])
      else h
    case Deliver(ts, commits) =>
      var p := DeliverAll(h.statuses, ts);
      if p.aborted || !commits then h.(wasted := h.wasted + p.called)
      else h.(statuses := p.statuses, calls := h.calls + p.called)
  }

  /** Every event of a run is legal. */
  ghost predicate AllLegal(events: seq<Event>) {
    events != [] ==> AllLegal(events[..|events| - 1]) && Legal(events[|events| - 1])
  }

  predicate NoneForced(events: seq<Event>) {
    events != [] ==> NoneForced(events[..|events| - 1]) && !Forced(events[|events| - 1])
  }

  /** No delivery meets a conflict on a transport that is due, or at its commit after calling one. */
  ghost predicate MeetsNoConflict(st: Statuses, e: Event) {
    e.Deliver? ==> !HasConflict(st, e.transports) && (e.commits || DueNames(st, e.transports) == [])
  }

  /** So it is for every delivery of a run. */
  ghost predicate ConflictFree(events: seq<Event>) {
    events != [] ==>
      var before, last := events[..|events| - 1], events[|events| - 1];
      ConflictFree(before) && MeetsNoConflict(Run(before).statuses, last)
  }

  function Run(events: seq<Event>): History {
    if events == [] then History(map[], [], [], [])
    else Apply(Run(events[..|events| - 1]), events[|events| - 1])
  }

  function Count(names: seq<string>, name: string): nat {
    multiset(names)[name]
  }

  /** A mark is used up by at most one call, and a scheduled status is a mark not yet used. */
  ghost predicate Balanced(h: History, name: string) {
    && Count(h.calls, name) + (if IsScheduledWith(h.statuses, name) then 1 else 0) <= Count(h.marks, name)
    && (name in h.statuses <==> Count(h.marks, name) > 0)
  }

  /** Without force a transport is marked once, and called once as soon as it has an outcome. */
  ghost predicate Exact(h: History, name: string) {
    && Count(h.marks, name) == (if name in h.statuses then 1 else 0)
    && Count(h.calls, name) == (if name in h.statuses && h.statuses[name] != Scheduled then 1 else 0)
  }

  predicate Forced(e: Event) {
    match e
    case Schedule(_, force) => force
    case ScheduleOne(_, force) => force
    case Deliver(_, _) => false
  }

  /** What a committed delivery does to one transport. */
  lemma DeliveryOfOne(st: Statuses, ts: seq<Transport>, name: string)
    requires DistinctNames(ts) && !DeliverAll(st, ts).aborted
    ensures var p := DeliverAll(st, ts);
      if IsScheduledWith(st, name) && HasEnabled(ts, name) then
        Count(p.called, name) == 1 && name in p.statuses && p.statuses[name] != Scheduled
      else
        && Count(p.called, name) == 0
        && (name in p.statuses <==> name in st) && (name in st ==> p.statuses[name] == st[name])
  {
    DeliveryCallsDue(st, ts);
    DueOnce(st, ts, name);
    if IsScheduledWith(st, name) && HasEnabled(ts, name) {
      var k :| 0 <= k < |ts| && ts[k].enabled && ts[k].name == name;
      DeliveryRecordsOutcome(st, ts, k);
    } else {
      OthersKeepStatus(st, ts, name);
    }
  }

  lemma StepBalances(h: History, e: Event, name: string)
    requires Legal(e) && Balanced(h, name)
    ensures Balanced(Apply(h, e), name)
    ensures !Forced(e) && Exact(h, name) ==> Exact(Apply(h, e), name)
  {
    match e
    case Schedule(ts, force) =>
      SchedulingMarksExactly(h.statuses, ts, force, name);
      MarkedOnce(h.statuses, ts, force, name);
    case ScheduleOne(_, _) =>
    case Deliver(ts, _) =>
      if !DeliverAll(h.statuses, ts).aborted { DeliveryOfOne(h.statuses, ts, name); }
  }

  lemma {:induction false} RunBalances(events: seq<Event>, name: string)
    requires AllLegal(events)
    ensures Balanced(Run(events), name)
    ensures NoneForced(events) ==> Exact(Run(events), name)
  {
    if events != [] {
      RunBalances(events[..|events| - 1], name);
      StepBalances(Run(events[..|events| - 1]), events[|events| - 1], name);
    }
  }

  lemma {:induction false} AbortedCalled(st: Statuses, ts: seq<Transport>)
    ensures DeliverAll(st, ts).aborted ==> DeliverAll(st, ts).called != []
  {
    if ts != [] { AbortedCalled(st, ts[..|ts| - 1]); }
  }

  /** Calls are wasted exactly in the runs that are not free of conflicts. */
  lemma {:induction false} NothingWasted(events: seq<Event>)
    requires AllLegal(events)
    ensures Run(events).wasted == [] <==> ConflictFree(events)
  {
    if events != [] {
      var before, last := Run(events[..|events| - 1]), events[|events| - 1];
      NothingWasted(events[..|events| - 1]);
      if last.Deliver? {
        AbortsExactly(before.statuses, last.transports);
        AbortedCalled(before.statuses, last.transports);
        if !DeliverAll(before.statuses, last.transports).aborted { DeliveryCallsDue(before.statuses, last.transports); }
      }
    }
  }

  /** All calls of a transport in a run, also those made in aborted deliveries. */
  function AllCalls(events: seq<Event>, name: string): nat {
    Count(Run(events).calls, name) + Count(Run(events).wasted, name)
  }

  /** Without conflicts no transport is called more often than it was marked as scheduled, and
      without force never twice. */
  lemma CallsNeedMarks(events: seq<Event>, name: string)
    requires AllLegal(events) && ConflictFree(events)
    ensures AllCalls(events, name) <= Count(Run(events).marks, name)
    ensures NoneForced(events) ==> AllCalls(events, name) <= 1
  {
    RunBalances(events, name);
    NothingWasted(events);
  }

  /** Without force, conflicts or not, the calls of a transport are those of the aborted deliveries
      and one more exactly when its delivery was recorded as a success or a failure. */
  lemma CallsWithoutForce(events: seq<Event>, name: string)
    requires AllLegal(events) && NoneForced(events)
    ensures var h := Run(events);
      AllCalls(events, name)
        == Count(h.wasted, name) + (if name in h.statuses && h.statuses[name] != Scheduled then 1 else 0)
  {
    RunBalances(events, name);
  }

  /** A conflict, in the transport or at the commit, makes a second call for one mark: the status is
      rolled back, the call is not. */
  lemma ConflictRepeatsCall(t: Transport, commits: bool)
    requires t.enabled && (t.outcome == Conflict || !commits)
    ensures var t' := t.(outcome := Delivered);
      var events := [ScheduleOne(t.name, false), Deliver([t], commits), Deliver([t'], true)];
      AllCalls(events, t.name) == 2 && Count(Run(events).marks, t.name) == 1
  {
    var name, t' := t.name, t.(outcome := Delivered);
    var events := [ScheduleOne(name, false), Deliver([t], commits), Deliver([t'], true)];
    assert events[..2][..1] == [events[0]];
    var scheduled := map[name := Scheduled];
    var h1 := History(scheduled, [name], [], []);
    assert Run([events[0]]) == h1;
    DeliverOne(scheduled, t);
    DeliverOne(scheduled, t');
    assert Run(events[..2]) == h1.(wasted := [name]);
  }

  lemma DeliverOne(st: Statuses, t: Transport)
    ensures DeliverAll(st, [t]) == DeliverWith(Progress(st, [], false), t)
  {
    assert [t][..0] == [];
  }

  // ----- the nightly job -----

  datatype Disposition = Disposition(disposed: bool, annotation: Option<Statuses>)

  ghost predicate IsForDelivery(d: Disposition) {
    d.disposed && IsScheduled(StatusesOf(d.annotation))
  }

  /** The positions of the catalog's dispositions that are disposed and scheduled, in order. */
  ghost predicate AreJobs(jobs: seq<nat>, dispositions: seq<Disposition>) {
    && (forall i, j :: 0 <= i < j < |jobs| ==> jobs[i] < jobs[j])
    && (forall d: nat :: d in jobs <==> d < |dispositions| && IsForDelivery(dispositions[d]))
  }

  class NightlySIPDelivery {
    /** The dispositions known to the catalog, in its order. */
    var dispositions: seq<Disposition>

    constructor (dispositions: seq<Disposition>)
      ensures this.dispositions == dispositions
    {
      this.dispositions := dispositions;
    }

    method GetDispositionsForDelivery() returns (jobs: seq<nat>)
      ensures AreJobs(jobs, dispositions)
      ensures forall d: nat :: d in jobs <==>
        d < |dispositions| && dispositions[d].disposed && IsScheduled(StatusesOf(dispositions[d].annotation))
    {
      jobs := [];
      for d := 0 to |dispositions|
        invariant forall i | 0 <= i < |jobs| :: jobs[i] < d
        invariant AreJobs(jobs, dispositions[..d])
      {
        if dispositions[d].disposed {
          var scheduler := new DeliveryScheduler(dispositions[d].annotation);
          var scheduled := scheduler.IsScheduledForDelivery();
          if scheduled { jobs := jobs + [d]; }
        }
      }
      assert dispositions[..|dispositions|] == dispositions;
    }

    method RunJob(job: nat, transports: seq<Transport>) returns (raised: bool)
      requires job < |dispositions|
      modifies this
      ensures raised == DeliverAll(StatusesOf(old(dispositions)[job].annotation), transports).aborted
      ensures dispositions == AfterJob(old(dispositions), job, transports)
    {
      var scheduler := new DeliveryScheduler(dispositions[job].annotation);
      raised := scheduler.Deliver(transports);
      dispositions := dispositions[job := dispositions[job].(annotation := scheduler.annotation)];
    }
  }

  function AfterJob(ds: seq<Disposition>, job: nat, ts: seq<Transport>): (r: seq<Disposition>)
    requires job < |ds|
    ensures |r| == |ds|
  {
    ds[job := ds[job].(annotation := Redelivered(ds[job].annotation, ts))]
  }

  /** The dispositions after some jobs, each with the transports as they are when it runs. */
  function AfterJobs(ds: seq<Disposition>, jobs: seq<nat>, transports: seq<seq<Transport>>): (r: seq<Disposition>)
    requires |jobs| == |transports| && forall i | 0 <= i < |jobs| :: jobs[i] < |ds|
    ensures |r| == |ds|
  {
    if jobs == [] then ds
    else
      var n := |jobs| - 1;
      AfterJob(AfterJobs(ds, jobs[..n], transports[..n]), jobs[n], transports[n])
  }

  lemma {:induction false} JobsLeaveOthers(ds: seq<Disposition>, jobs: seq<nat>, transports: seq<seq<Transport>>,
                                         d: nat)
    requires |jobs| == |transports| && forall i | 0 <= i < |jobs| :: jobs[i] < |ds|
    requires d < |ds| && d !in jobs
    ensures AfterJobs(ds, jobs, transports)[d] == ds[d]
  {
    if jobs != [] {
      var n := |jobs| - 1;
      JobsLeaveOthers(ds, jobs[..n], transports[..n], d);
    }
  }

  lemma {:induction false} JobDelivers(ds: seq<Disposition>, jobs: seq<nat>, transports: seq<seq<Transport>>, i: nat)
    requires |jobs| == |transports| && NoDuplicates(jobs) && forall k | 0 <= k < |jobs| :: jobs[k] < |ds|
    requires i < |jobs|
    ensures AfterJobs(ds, jobs, transports)[jobs[i]]
      == ds[jobs[i]].(annotation := Redelivered(ds[jobs[i]].annotation, transports[i]))
  {
    var n := |jobs| - 1;
    if i == n {
      JobsLeaveOthers(ds, jobs[..n], transports[..n], jobs[n]);
    } else {
      JobDelivers(ds, jobs[..n], transports[..n], i);
    }
  }

  /** Some transport is scheduled that no enabled adapter serves. */
  ghost predicate HasStuck(st: Statuses, ts: seq<Transport>) {
    exists name :: IsScheduledWith(st, name) && !HasEnabled(ts, name)
  }

  /** A job that meets no conflict leaves its disposition for the next night exactly when a
      transport is scheduled that is disabled or no longer registered. */
  lemma JobIsFinishedExactly(d: Disposition, d': Disposition, ts: seq<Transport>)
    requires IsForDelivery(d) && DistinctNames(ts) && d'.disposed
    requires !HasConflict(StatusesOf(d.annotation), ts)
    requires StatusesOf(d'.annotation) == DeliverAll(StatusesOf(d.annotation), ts).statuses
    ensures IsForDelivery(d') <==> HasStuck(StatusesOf(d.annotation), ts)
  {
    var st, st' := StatusesOf(d.annotation), StatusesOf(d'.annotation);
    AbortsExactly(st, ts);
    if name :| IsScheduledWith(st', name) {
      LeftScheduledExactly(st, ts, name);
    }
    if name :| IsScheduledWith(st, name) && !HasEnabled(ts, name) {
      LeftScheduledExactly(st, ts, name);
      assert IsScheduledWith(st', name);
    }
  }

  /** The first `|transports|` jobs of a night were run and committed, none of them with a conflict; a
      conflict ends the night and undoes its own job only. */
  ghost predicate IsNight(ds: seq<Disposition>, jobs: seq<nat>, transports: seq<seq<Transport>>) {
    && AreJobs(jobs, ds) && |transports| <= |jobs|
    && forall i :: 0 <= i < |transports| ==>
         && jobs[i] < |ds| && DistinctNames(transports[i])
         && !HasConflict(StatusesOf(ds[jobs[i]].annotation), transports[i])
  }

  function AfterNight(ds: seq<Disposition>, jobs: seq<nat>, transports: seq<seq<Transport>>): (r: seq<Disposition>)
    requires |transports| <= |jobs| && forall i :: 0 <= i < |transports| ==> jobs[i] < |ds|
    ensures |r| == |ds|
  {
    AfterJobs(ds, jobs[..|transports|], transports)
  }

  /** The provider yields a disposition after the night exactly as before when its job was not run. */
  lemma NotRunStays(ds: seq<Disposition>, jobs: seq<nat>, transports: seq<seq<Transport>>, d: nat)
    requires IsNight(ds, jobs, transports) && d < |ds| && d !in jobs[..|transports|]
    ensures IsForDelivery(AfterNight(ds, jobs, transports)[d]) <==> d in jobs[|transports|..]
  {
    JobsLeaveOthers(ds, jobs[..|transports|], transports, d);
    assert jobs == jobs[..|transports|] + jobs[|transports|..];
  }

  /** It yields a disposition whose job was run exactly when a transport is scheduled that is
      disabled or no longer registered. */
  lemma RunJobReturnsExactly(ds: seq<Disposition>, jobs: seq<nat>, transports: seq<seq<Transport>>, i: nat)
    requires IsNight(ds, jobs, transports) && i < |transports|
    ensures IsForDelivery(AfterNight(ds, jobs, transports)[jobs[i]])
      <==> HasStuck(StatusesOf(ds[jobs[i]].annotation), transports[i])
  {
    var d := jobs[i];
    assert d in jobs;
    JobDelivers(ds, jobs[..|transports|], transports, i);
    JobIsFinishedExactly(ds[d], AfterNight(ds, jobs, transports)[d], transports[i]);
  }
}
