/** Sequence numbers handed out over a separate database connection with optimistic concurrency. */
module SequenceNumbers {
  import opened Collections

  const MAXIMUM_RETRIES: nat := 10

  /** A content object; its generator key is derived from its portal type. */
  datatype Content = Content(id: int, key: string)

  /** The portal's counter mapping. `serial` is its database revision: it grows with each commit. */
  datatype Storage = Storage(counters: map<string, nat>, serial: nat)

  function Counter(counters: map<string, nat>, key: string): nat {
    if key in counters then counters[key] else 0
  }

  function Increment(counters: map<string, nat>, key: string): map<string, nat> {
    counters[key := Counter(counters, key) + 1]
  }

  /** A commit goes through exactly when the mapping was not written since the snapshot. */
  function TryCommit(storage: Storage, snapshotSerial: nat, mapping: map<string, nat>): Option<Storage> {
    if storage.serial == snapshotSerial then Some(Storage(mapping, storage.serial + 1)) else None
  }

  // ----- the incrementer of one client -----

  class Annotation {
    var mapping: map<string, nat>

    constructor (mapping: map<string, nat>)
      ensures this.mapping == mapping
    {
      this.mapping := mapping;
    }

    method IncrementNumber(key: string) returns (number: nat)
      modifies this
      ensures mapping == Increment(old(mapping), key) && number == mapping[key]
      ensures number > Counter(old(mapping), key)
    {
      if key !in mapping {
        mapping := mapping[key := 0];
      }
      mapping := mapping[key := mapping[key] + 1];
      number := mapping[key];
    }
  }

  /** The storage after other clients committed an increment for each of `keys`, in order. */
  function AfterForeignCommits(storage: Storage, keys: seq<string>): Storage {
    if keys == [] then storage
    else
      var before := AfterForeignCommits(storage, keys[..|keys| - 1]);
      Storage(Increment(before.counters, keys[|keys| - 1]), before.serial + 1)
  }

  /** The foreign commits of several attempts, one after the other. */
  function AfterInterference(storage: Storage, interference: seq<seq<string>>): Storage {
    if interference == [] then storage
    else
      AfterForeignCommits(AfterInterference(storage, interference[..|interference| - 1]),
                          interference[|interference| - 1])
  }

  lemma {:induction false} ForeignCommitsAdvance(storage: Storage, keys: seq<string>)
    ensures AfterForeignCommits(storage, keys).serial == storage.serial + |keys|
  {
    if keys != [] { ForeignCommitsAdvance(storage, keys[..|keys| - 1]); }
  }

  ghost predicate FirstQuiet(interference: seq<seq<string>>, a: nat)
    requires a < |interference|
  {
    interference[a] == [] && forall r :: 0 <= r < a ==> interference[r] != []
  }

  class Database {
    var storage: Storage

    constructor (storage: Storage)
      ensures this.storage == storage
    {
      this.storage := storage;
    }

    /** One request for a number. `interference[r]` are the keys for which other clients commit
        between begin and commit of attempt `r`. The request is served by the first attempt left
        alone, with the number after all commits so far, and refused only when all ten attempts
        were overtaken. */
    method SeparateZodbConnection(key: string, interference: seq<seq<string>>) returns (result: Option<nat>)
      requires |interference| == MAXIMUM_RETRIES
      modifies this
      ensures result.None? <==> forall r :: 0 <= r < MAXIMUM_RETRIES ==> interference[r] != []
      ensures result.None? ==> storage == AfterInterference(old(storage), interference)
      ensures forall a | 0 <= a < MAXIMUM_RETRIES && FirstQuiet(interference, a) ::
                var before := AfterInterference(old(storage), interference[..a]);
                && result == Some(Counter(before.counters, key) + 1)
                && storage == Storage(Increment(before.counters, key), before.serial + 1)
    {
      var r := 0;
      while r < MAXIMUM_RETRIES
        invariant 0 <= r <= MAXIMUM_RETRIES
        invariant forall k :: 0 <= k < r ==> interference[k] != []
        invariant storage == AfterInterference(old(storage), interference[..r])
      {
        var begun := storage.serial;
        var portal := new Annotation(storage.counters);
        var number := portal.IncrementNumber(key);
        ForeignCommitsAdvance(storage, interference[r]);
        assert interference[..r + 1][..r] == interference[..r];
        storage := AfterForeignCommits(storage, interference[r]);
        match TryCommit(storage, begun, portal.mapping) {
          case Some(committed) =>
            storage := committed;
            return Some(number);
          case None =>
        }
        r := r + 1;
      }
      assert interference[..r] == interference;
      result := None;
    }
  }

  /** The object's own annotation. A number is generated only once; a refused request leaves none. */
  class Numbered {
    var number: Option<nat>
    const key: string

    constructor (key: string)
      ensures number == None && this.key == key
    {
      number := None;
      this.key := key;
    }

    method GetNumber(db: Database, interference: seq<seq<string>>) returns (result: Option<nat>)
      requires |interference| == MAXIMUM_RETRIES
      modifies this, db
      ensures result == number
      ensures old(number).Some? ==> number == old(number) && db.storage == old(db.storage)
      ensures old(number).None? ==>
        (number.None? <==> forall r :: 0 <= r < MAXIMUM_RETRIES ==> interference[r] != [])
      ensures number.None? ==> db.storage == AfterInterference(old(db.storage), interference)
      ensures old(number).None? ==>
        forall a | 0 <= a < MAXIMUM_RETRIES && FirstQuiet(interference, a) ::
          var before := AfterInterference(old(db.storage), interference[..a]);
          && number == Some(Counter(before.counters, key) + 1)
          && db.storage == Storage(Increment(before.counters, key), before.serial + 1)
    {
      if number.None? {
        number := db.SeparateZodbConnection(key, interference);
      }
      result := number;
    }

    method RemoveNumber()
      modifies this
      ensures number == None
    {
      if number.Some? {
        number := None;
      }
    }
  }

  // ----- all clients at once -----

  /** Where a client stands: outside of or in its main transaction, or in the attempts of a request;
      `start` is the revision when it asked. */
  datatype Phase =
    | Outside
    | Idle
    | Waiting(obj: Content, tries: nat, start: nat)
    | Begun(obj: Content, tries: nat, start: nat, snapshot: Storage)
    | Counted(obj: Content, tries: nat, start: nat, serial: nat, mapping: map<string, nat>, number: nat)
    | Refused(start: nat)

  /** `view` is what the main transaction read of the object annotations, `pending` what it wrote. */
  datatype Client = Client(phase: Phase, view: map<Content, nat>, pending: map<Content, Option<nat>>)

  datatype Issue = Issue(obj: Content, number: nat)

  datatype System = System(storage: Storage, clients: map<nat, Client>,
                           holdings: map<Content, nat>, issued: seq<Issue>)

  datatype Step =
    | BeginMain(c: nat)
    | Request(c: nat, obj: Content)
    | Remove(c: nat, obj: Content)
    | Begin(c: nat)
    | Count(c: nat)
    | Commit(c: nat)
    | CommitMain(c: nat)
    | AbortMain(c: nat)

  const OUTSIDE := Client(Outside, map[], map[])

  const INITIAL := System(Storage(map[], 0), map[], map[], [])

  function ClientOf(s: System, c: nat): Client {
    if c in s.clients then s.clients[c] else OUTSIDE
  }

  predicate HasNumber(client: Client, obj: Content) {
    if obj in client.pending then client.pending[obj].Some? else obj in client.view
  }

  function Overlay(holdings: map<Content, nat>, pending: map<Content, Option<nat>>): map<Content, nat> {
    map obj | obj in holdings.Keys + pending.Keys
              && (if obj in pending then pending[obj].Some? else true)
      :: if obj in pending then pending[obj].value else holdings[obj]
  }

  /** One step of one client; a step that is not enabled changes nothing. */
  function Apply(s: System, step: Step): System {
    var client := ClientOf(s, step.c);
    match step
    case BeginMain(c) =>
      if client.phase != Outside then s else s.(clients := s.clients[c := Client(Idle, s.holdings, map[])])
    case Request(c, obj) =>
      if client.phase != Idle || HasNumber(client, obj) then s
      else s.(clients := s.clients[c := client.(phase := Waiting(obj, 0, s.storage.serial))])
    case Remove(c, obj) =>
      if client.phase != Idle || !HasNumber(client, obj) then s
      else s.(clients := s.clients[c := client.(pending := client.pending[obj := None])])
    case Begin(c) =>
      (match client.phase
       case Waiting(obj, tries, start) =>
         s.(clients := s.clients[c := client.(phase := Begun(obj, tries, start, s.storage))])
       case _ => s)
    case Count(c) =>
      (match client.phase
       case Begun(obj, tries, start, snapshot) =>
         var mapping := Increment(snapshot.counters, obj.key);
         s.(clients := s.clients[c := client.(phase :=
           Counted(obj, tries, start, snapshot.serial, mapping, mapping[obj.key]))])
       case _ => s)
    case Commit(c) =>
      (match client.phase
       case Counted(obj, tries, start, serial, mapping, number) =>
         (match TryCommit(s.storage, serial, mapping)
          case Some(committed) =>
            System(committed,
                   s.clients[c := client.(phase := Idle, pending := client.pending[obj := Some(number)])],
                   s.holdings, s.issued + [Issue(obj, number)])
          case None =>
            var phase := if tries + 1 < MAXIMUM_RETRIES then Waiting(obj, tries + 1, start) else Refused(start);
            s.(clients := s.clients[c := client.(phase := phase)]))
       case _ => s)
    case CommitMain(c) =>
      if client.phase != Idle then s
      else s.(holdings := Overlay(s.holdings, client.pending), clients := s.clients[c := OUTSIDE])
    case AbortMain(c) => s.(clients := s.clients[c := OUTSIDE])
  }

  function Run(steps: seq<Step>): System {
    if steps == [] then INITIAL else Apply(Run(steps[..|steps| - 1]), steps[|steps| - 1])
  }

  // ----- what every step keeps -----

  /** The numbers issued for one key, in the order of the commits. */
  function NumbersFor(issued: seq<Issue>, key: string): seq<nat> {
    if issued == [] then []
    else
      var last := issued[|issued| - 1];
      NumbersFor(issued[..|issued| - 1], key) + (if last.obj.key == key then [last.number] else [])
  }

  function UpTo(n: nat): (r: seq<nat>)
    ensures |r| == n && forall k :: 0 <= k < n ==> r[k] == k + 1
  {
    if n == 0 then [] else UpTo(n - 1) + [n]
  }

  ghost predicate IssuedInOrder(s: System) {
    forall key :: NumbersFor(s.issued, key) == UpTo(Counter(s.storage.counters, key))
  }

  ghost predicate PhaseOk(s: System, phase: Phase) {
    match phase
    case Outside => true
    case Idle => true
    case Waiting(obj, tries, start) => tries < MAXIMUM_RETRIES && start + tries <= s.storage.serial
    case Begun(obj, tries, start, snapshot) =>
      && tries < MAXIMUM_RETRIES && start + tries <= snapshot.serial <= s.storage.serial
      && (snapshot.serial == s.storage.serial ==> snapshot == s.storage)
    case Counted(obj, tries, start, serial, mapping, number) =>
      && tries < MAXIMUM_RETRIES && start + tries <= serial <= s.storage.serial
      && (serial == s.storage.serial ==>
          mapping == Increment(s.storage.counters, obj.key) && number == mapping[obj.key])
    case Refused(start) => start + MAXIMUM_RETRIES <= s.storage.serial
  }

  ghost predicate ClientOk(s: System, client: Client) {
    && PhaseOk(s, client.phase)
    && (forall obj :: obj in client.view ==> Issue(obj, client.view[obj]) in s.issued)
    && (forall obj :: obj in client.pending && client.pending[obj].Some? ==>
          Issue(obj, client.pending[obj].value) in s.issued)
  }

  ghost predicate HoldingsIssued(s: System) {
    forall obj :: obj in s.holdings ==> Issue(obj, s.holdings[obj]) in s.issued
  }

  ghost predicate Inv(s: System) {
    && IssuedInOrder(s)
    && HoldingsIssued(s)
    && (forall c :: c in s.clients ==> ClientOk(s, s.clients[c]))
  }

  lemma NumbersForAfter(issued: seq<Issue>, issue: Issue, key: string)
    ensures NumbersFor(issued + [issue], key)
         == NumbersFor(issued, key) + (if issue.obj.key == key then [issue.number] else [])
  {
    assert (issued + [issue])[..|issued|] == issued;
  }

  /** A successful commit issues exactly the next number of its key. */
  lemma CommitIssuesInOrder(s: System, c: nat)
    requires IssuedInOrder(s) && PhaseOk(s, ClientOf(s, c).phase)
    requires ClientOf(s, c).phase.Counted? && ClientOf(s, c).phase.serial == s.storage.serial
    ensures IssuedInOrder(Apply(s, Commit(c)))
  {
    var phase, s' := ClientOf(s, c).phase, Apply(s, Commit(c));
    forall key ensures NumbersFor(s'.issued, key) == UpTo(Counter(s'.storage.counters, key)) {
      NumbersForAfter(s.issued, Issue(phase.obj, phase.number), key);
      assert NumbersFor(s.issued, key) == UpTo(Counter(s.storage.counters, key));
    }
  }

  lemma CommitKeepsInv(s: System, c: nat)
    requires Inv(s)
    requires ClientOf(s, c).phase.Counted? && ClientOf(s, c).phase.serial == s.storage.serial
    ensures Inv(Apply(s, Commit(c)))
  {
    var s' := Apply(s, Commit(c));
    assert c in s.clients && PhaseOk(s, ClientOf(s, c).phase);
    CommitIssuesInOrder(s, c);
    forall d | d in s'.clients ensures ClientOk(s', s'.clients[d]) {
      if d != c { assert ClientOk(s, s.clients[d]); }
    }
  }

  /** A step other than a successful commit only moves its own client, within what is allowed. */
  lemma OwnStepKeepsClientOk(s: System, step: Step)
    requires HoldingsIssued(s) && ClientOk(s, ClientOf(s, step.c))
    requires Apply(s, step).storage == s.storage && Apply(s, step).issued == s.issued
    ensures ClientOk(Apply(s, step), ClientOf(Apply(s, step), step.c))
    ensures HoldingsIssued(Apply(s, step))
  {
  }

  lemma StepKeepsInv(s: System, step: Step)
    requires Inv(s)
    ensures Inv(Apply(s, step))
  {
    var c := step.c;
    var client := ClientOf(s, c);
    assert ClientOk(s, client);
    if step.Commit? && client.phase.Counted? && client.phase.serial == s.storage.serial {
      CommitKeepsInv(s, c);
    } else {
      var s' := Apply(s, step);
      assert s'.storage == s.storage && s'.issued == s.issued;
      assert IssuedInOrder(s');
      OwnStepKeepsClientOk(s, step);
      forall d | d in s'.clients ensures ClientOk(s', s'.clients[d]) {
        if d != c { assert s'.clients[d] == s.clients[d] && ClientOk(s, s.clients[d]); }
      }
    }
  }

  lemma {:induction false} RunKeepsInv(steps: seq<Step>)
    ensures Inv(Run(steps))
  {
    if steps != [] {
      RunKeepsInv(steps[..|steps| - 1]);
      StepKeepsInv(Run(steps[..|steps| - 1]), steps[|steps| - 1]);
    }
  }

  // ----- the guarantees -----

  lemma {:induction false} IssuedNumberListed(issued: seq<Issue>, i: nat, key: string)
    requires i < |issued| && issued[i].obj.key == key
    ensures NumbersFor(issued[..i + 1], key) <= NumbersFor(issued, key)
    ensures |NumbersFor(issued[..i + 1], key)| == |NumbersFor(issued[..i], key)| + 1
    ensures NumbersFor(issued, key)[|NumbersFor(issued[..i], key)|] == issued[i].number
  {
    assert issued[..i + 1][..i] == issued[..i];
    if i + 1 == |issued| {
      assert issued[..i + 1] == issued;
    } else {
      var init := issued[..|issued| - 1];
      assert init[..i] == issued[..i] && init[..i + 1] == issued[..i + 1];
      IssuedNumberListed(init, i, key);
    }
  }

  /** The k-th commit for a key issued the number k. */
  lemma IssuedNumberIsRank(steps: seq<Step>, i: nat)
    requires i < |Run(steps).issued|
    ensures var issued := Run(steps).issued;
      issued[i].number == |NumbersFor(issued[..i], issued[i].obj.key)| + 1
  {
    var s := Run(steps);
    RunKeepsInv(steps);
    var key := s.issued[i].obj.key;
    IssuedNumberListed(s.issued, i, key);
    assert NumbersFor(s.issued, key) == UpTo(Counter(s.storage.counters, key));
  }

  ghost predicate NumbersIncrease(s: System) {
    forall i, j :: 0 <= i < j < |s.issued| && s.issued[i].obj.key == s.issued[j].obj.key ==>
      s.issued[i].number < s.issued[j].number
  }

  ghost predicate NumbersBelowCounter(s: System) {
    forall i :: 0 <= i < |s.issued| ==>
      1 <= s.issued[i].number <= Counter(s.storage.counters, s.issued[i].obj.key)
  }

  /** Under every interleaving no number is issued twice for a key, none exceeds the counter, and the
      counter is the number of successful commits for the key. */
  lemma NumbersUnique(steps: seq<Step>)
    ensures NumbersIncrease(Run(steps)) && NumbersBelowCounter(Run(steps))
    ensures forall key :: Counter(Run(steps).storage.counters, key) == |NumbersFor(Run(steps).issued, key)|
  {
    var s := Run(steps);
    RunKeepsInv(steps);
    assert IssuedInOrder(s);
    forall i | 0 <= i < |s.issued|
      ensures 1 <= s.issued[i].number <= Counter(s.storage.counters, s.issued[i].obj.key)
    {
      IssuedNumberIsRank(steps, i);
      IssuedNumberListed(s.issued, i, s.issued[i].obj.key);
      assert NumbersFor(s.issued, s.issued[i].obj.key) == UpTo(Counter(s.storage.counters, s.issued[i].obj.key));
    }
    forall i, j | 0 <= i < j < |s.issued| && s.issued[i].obj.key == s.issued[j].obj.key
      ensures s.issued[i].number < s.issued[j].number
    {
      IssuedNumberIsRank(steps, i);
      IssuedNumberIsRank(steps, j);
      var front := s.issued[..j];
      assert front[i] == s.issued[i] && front[..i] == s.issued[..i] && front[..i + 1] == s.issued[..i + 1];
      IssuedNumberListed(front, i, s.issued[i].obj.key);
    }
  }

  /** An object holds a number if it is stored, or written or read by an open main transaction. */
  ghost predicate Holds(s: System, obj: Content, number: nat) {
    || (obj in s.holdings && s.holdings[obj] == number)
    || (exists c :: c in s.clients &&
          ((obj in s.clients[c].pending && s.clients[c].pending[obj] == Some(number))
           || (obj in s.clients[c].view && s.clients[c].view[obj] == number)))
  }

  /** Two objects sharing a key never hold the same number, whatever main transactions abort. */
  lemma HoldersUnique(steps: seq<Step>, a: Content, b: Content, number: nat)
    requires a.key == b.key
    requires Holds(Run(steps), a, number) && Holds(Run(steps), b, number)
    ensures a == b
  {
    var s := Run(steps);
    RunKeepsInv(steps);
    assert Issue(a, number) in s.issued && Issue(b, number) in s.issued;
    var i :| 0 <= i < |s.issued| && s.issued[i] == Issue(a, number);
    var j :| 0 <= j < |s.issued| && s.issued[j] == Issue(b, number);
    NumbersUnique(steps);
  }

  /** A request is tried at most ten times, and refused only after ten commits by others. */
  lemma RetriesBounded(steps: seq<Step>, c: nat)
    ensures var s := Run(steps);
      match ClientOf(s, c).phase
      case Outside => true
      case Idle => true
      case Refused(start) => s.storage.serial >= start + MAXIMUM_RETRIES
      case phase => phase.tries < MAXIMUM_RETRIES && s.storage.serial >= phase.start + phase.tries
  {
    RunKeepsInv(steps);
    assert PhaseOk(Run(steps), ClientOf(Run(steps), c).phase);
  }

  lemma RunAfter(steps: seq<Step>, step: Step)
    ensures Run(steps + [step]) == Apply(Run(steps), step)
  {
    assert (steps + [step])[..|steps|] == steps;
  }

  /** The steps by which client 0 obtains a number for `obj` undisturbed. */
  function Obtain(obj: Content): seq<Step> {
    [BeginMain(0), Request(0, obj), Begin(0), Count(0), Commit(0)]
  }

  lemma ObtainsFrom(s: System, obj: Content)
    requires ClientOf(s, 0) == OUTSIDE && obj !in s.holdings
    ensures var begun := Apply(Apply(s, BeginMain(0)), Request(0, obj));
      var s' := Apply(Apply(Apply(begun, Begin(0)), Count(0)), Commit(0));
      && s'.storage.counters == Increment(s.storage.counters, obj.key)
      && ClientOf(s', 0) == Client(Idle, s.holdings, map[obj := Some(Counter(s.storage.counters, obj.key) + 1)])
      && s'.holdings == s.holdings
  {
  }

  lemma ObtainRuns(steps: seq<Step>, obj: Content)
    requires ClientOf(Run(steps), 0) == OUTSIDE && obj !in Run(steps).holdings
    ensures var s, s' := Run(steps), Run(steps + Obtain(obj));
      && s'.storage.counters == Increment(s.storage.counters, obj.key)
      && ClientOf(s', 0) == Client(Idle, s.holdings, map[obj := Some(Counter(s.storage.counters, obj.key) + 1)])
      && s'.holdings == s.holdings
  {
    ObtainsFrom(Run(steps), obj);
    RunsObtain(steps, obj);
  }

  lemma RunsObtain(steps: seq<Step>, obj: Content)
    ensures Run(steps + Obtain(obj))
         == Apply(Apply(Apply(Apply(Apply(Run(steps), BeginMain(0)), Request(0, obj)), Begin(0)), Count(0)), Commit(0))
  {
    var s0 := steps + [BeginMain(0)];
    var s1 := s0 + [Request(0, obj)];
    var s2 := s1 + [Begin(0)];
    var s3 := s2 + [Count(0)];
    RunAfter(steps, BeginMain(0));
    RunAfter(s0, Request(0, obj));
    RunAfter(s1, Begin(0));
    RunAfter(s2, Count(0));
    RunAfter(s3, Commit(0));
    assert steps + Obtain(obj) == s3 + [Commit(0)];
  }

  /** Gaps are possible: a number given to an aborted main transaction is never handed out again. */
  lemma GapAfterAbort()
    ensures exists steps, obj ::
      && Run(steps).holdings == map[obj := 2]
      && Counter(Run(steps).storage.counters, obj.key) == 2
  {
    var lost, kept := Content(1, "dossier"), Content(2, "dossier");
    var first := [] + Obtain(lost);
    var aborted := first + [AbortMain(0)];
    var second := aborted + Obtain(kept);
    var committed := second + [CommitMain(0)];
    ObtainRuns([], lost);
    RunAfter(first, AbortMain(0));
    ObtainRuns(aborted, kept);
    RunAfter(second, CommitMain(0));
    assert Run(committed).holdings == map[kept := 2];
  }

  // ----- a number is given once -----

  /** A main transaction reads what is stored, requests a number exactly for an object that has none, and
      stores what it wrote. */
  lemma MainTransaction(s: System, c: nat, obj: Content)
    ensures ClientOf(s, c).phase == Outside ==>
      ClientOf(Apply(s, BeginMain(c)), c) == Client(Idle, s.holdings, map[])
    ensures ClientOf(s, c).phase == Idle ==>
      var client := ClientOf(s, c);
      if (if obj in client.pending then client.pending[obj] != None else obj in client.view)
      then Apply(s, Request(c, obj)) == s
      else ClientOf(Apply(s, Request(c, obj)), c) == client.(phase := Waiting(obj, 0, s.storage.serial))
    ensures ClientOf(s, c).phase == Idle ==>
      var pending, holdings := ClientOf(s, c).pending, Apply(s, CommitMain(c)).holdings;
      if obj in pending then
        (obj in holdings <==> pending[obj].Some?) && (obj in holdings ==> Some(holdings[obj]) == pending[obj])
      else
        (obj in holdings <==> obj in s.holdings) && (obj in holdings ==> holdings[obj] == s.holdings[obj])
    ensures Apply(s, AbortMain(c)).holdings == s.holdings && ClientOf(Apply(s, AbortMain(c)), c) == OUTSIDE
  {
  }

  /** The object whose number a client is about to get. */
  function Asked(phase: Phase): Option<Content> {
    match phase
    case Waiting(obj, _, _) => Some(obj)
    case Begun(obj, _, _, _) => Some(obj)
    case Counted(obj, _, _, _, _, _) => Some(obj)
    case _ => None
  }

  ghost predicate IssuedOnce(issued: seq<Issue>) {
    forall i, j :: 0 <= i < j < |issued| ==> issued[i].obj != issued[j].obj
  }

  /** With one client: whoever got a number still has it, and is not asked for again. */
  ghost predicate Kept(s: System) {
    var client := ClientOf(s, 0);
    && IssuedOnce(s.issued)
    && (forall obj :: obj in client.pending ==> client.pending[obj].Some?)
    && (client.phase == Outside ==> client.pending == map[])
    && (client.phase != Outside ==> client.view == s.holdings)
    && (forall i :: 0 <= i < |s.issued| ==> s.issued[i].obj in s.holdings || s.issued[i].obj in client.pending)
    && (match Asked(client.phase) case Some(obj) => obj !in s.holdings && obj !in client.pending case None => true)
  }

  lemma StepKeeps(s: System, step: Step)
    requires Kept(s) && step.c == 0 && !step.Remove? && !step.AbortMain?
    ensures Kept(Apply(s, step))
  {
    MainTransaction(s, 0, Content(0, ""));
  }

  /** Without removals and aborts one client never gets a second number for an object, in however many main
      transactions it asks for it. */
  lemma {:induction false} NumberGivenOnce(steps: seq<Step>)
    requires forall i :: 0 <= i < |steps| ==> steps[i].c == 0 && !steps[i].Remove? && !steps[i].AbortMain?
    ensures Kept(Run(steps)) && IssuedOnce(Run(steps).issued)
  {
    if steps != [] {
      NumberGivenOnce(steps[..|steps| - 1]);
      StepKeeps(Run(steps[..|steps| - 1]), steps[|steps| - 1]);
    }
  }
}
