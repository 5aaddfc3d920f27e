/** The per-user log of recently touched documents, and the list shown from it. */
module TouchedLog {
  import opened Collections
  import opened StableSorting

  datatype Entry = Entry(uid: string, lastTouched: int)

  /** What the tracking decision and the log need to know of a content object. */
  datatype Context = Context(uid: string, isDocument: bool, isAutoGenerated: bool)

  predicate ShouldTrackTouches(obj: Context) {
    obj.isDocument && !obj.isAutoGenerated
  }

  predicate NewerOrSame(a: Entry, b: Entry) {
    a.lastTouched >= b.lastTouched
  }

  ghost predicate UniqueUids(log: seq<Entry>) {
    forall i, j :: 0 <= i < j < |log| ==> log[i].uid != log[j].uid
  }

  /** The log without the entries of one object. */
  function Without(log: seq<Entry>, uid: string): seq<Entry> {
    if log == [] then []
    else (if log[0].uid == uid then [] else [log[0]]) + Without(log[1..], uid)
  }

  lemma {:induction false} WithoutMembers(log: seq<Entry>, uid: string)
    ensures forall e :: e in Without(log, uid) <==> e in log && e.uid != uid
  {
    if log != [] { WithoutMembers(log[1..], uid); }
  }

  /** The deduplicating loop from position `i` on: the list shrinks while it is being iterated, so
      the entry after a removed one is never looked at. */
  function RemoveWhileIterating(log: seq<Entry>, uid: string, i: nat): seq<Entry>
    decreases |log| - i
  {
    if i >= |log| then log
    else if log[i].uid == uid then RemoveWhileIterating(RemoveFirst(log, log[i]), uid, i + 1)
    else RemoveWhileIterating(log, uid, i + 1)
  }

  function Touch(log: seq<Entry>, uid: string, now: int, cutoff: int): seq<Entry> {
    Take(StableSort([Entry(uid, now)] + RemoveWhileIterating(log, uid, 0), NewerOrSame), cutoff)
  }

  class ObjectTouchedHandler {
    var logs: map<string, seq<Entry>>

    constructor ()
      ensures logs == map[]
    {
      logs := map[];
    }

    method EnsureLogInitialized(userId: string)
      modifies this
      ensures logs == if userId in old(logs) then old(logs) else old(logs)[userId := []]
    {
      if userId !in logs {
        logs := logs[userId := []];
      }
    }

    method LogTouchedObject(userId: string, context: Context, now: int, limit: int, numCheckedOut: nat)
      modifies this
      ensures !context.isDocument || context.isAutoGenerated ==> logs == old(logs)
      ensures context.isDocument && !context.isAutoGenerated ==>
        var log := if userId in old(logs) then old(logs)[userId] else [];
        logs == old(logs)[userId := Touch(log, context.uid, now, limit + numCheckedOut)]
    {
      if !ShouldTrackTouches(context) {
        return;
      }
      EnsureLogInitialized(userId);
      PutInFront(userId, context.uid, now);
      Sort(userId);
      Rotate(userId, limit, numCheckedOut);
    }

    method PutInFront(userId: string, uid: string, now: int)
      requires userId in logs
      modifies this
      ensures logs == old(logs)[userId := [Entry(uid, now)] + RemoveWhileIterating(old(logs)[userId], uid, 0)]
    {
      Deduplicate(userId, uid);
      logs := logs[userId := [Entry(uid, now)] + logs[userId]];
    }

    method Deduplicate(userId: string, uid: string)
      requires userId in logs
      modifies this
      ensures logs == old(logs)[userId := RemoveWhileIterating(old(logs)[userId], uid, 0)]
    {
      ghost var initial := logs;
      var i := 0;
      while i < |logs[userId]|
        invariant userId in logs && logs == initial[userId := logs[userId]]
        invariant RemoveWhileIterating(logs[userId], uid, i) == RemoveWhileIterating(initial[userId], uid, 0)
        decreases |logs[userId]| - i
      {
        var entry := logs[userId][i];
        if entry.uid == uid {
          logs := logs[userId := RemoveFirst(logs[userId], entry)];
        }
        i := i + 1;
      }
    }

    /** Newest first; entries of the same time keep their order, and none gets lost. */
    method Sort(userId: string)
      requires userId in logs
      modifies this
      ensures logs == old(logs)[userId := StableSort(old(logs)[userId], NewerOrSame)]
      ensures Sorted(logs[userId], NewerOrSame) && multiset(logs[userId]) == multiset(old(logs)[userId])
      ensures forall e :: Ties(logs[userId], e, NewerOrSame) == Ties(old(logs)[userId], e, NewerOrSame)
    {
      StableSortCorrect(logs[userId], NewerOrSame);
      logs := logs[userId := StableSort(logs[userId], NewerOrSame)];
    }

    /** Drops entries from the end only, and none as long as there are no more than the cutoff. */
    method Rotate(userId: string, limit: int, numCheckedOut: nat)
      requires userId in logs
      modifies this
      ensures logs == old(logs)[userId := Take(old(logs)[userId], limit + numCheckedOut)]
      ensures logs[userId] <= old(logs)[userId]
      ensures limit >= 0 ==> |logs[userId]| == Min(|old(logs)[userId]|, limit + numCheckedOut)
    {
      var cutoff := limit + numCheckedOut;
      logs := logs[userId := Take(logs[userId], cutoff)];
    }
  }

  // ----- the removing loop -----

  ghost predicate NoAdjacentPair(log: seq<Entry>, uid: string) {
    forall k :: 0 <= k < |log| - 1 ==> log[k].uid != uid || log[k + 1].uid != uid
  }

  ghost predicate Mentions(log: seq<Entry>, uid: string) {
    exists k :: 0 <= k < |log| && log[k].uid == uid
  }

  lemma {:induction false} LoopKeepsEarlierMention(log: seq<Entry>, uid: string, i: nat)
    requires i <= |log| && Mentions(log[..i], uid)
    ensures Mentions(RemoveWhileIterating(log, uid, i), uid)
    decreases |log| - i
  {
    var k :| 0 <= k < i && log[..i][k].uid == uid;
    if i == |log| {
      assert log[k].uid == uid;
    } else if log[i].uid == uid {
      var next := RemoveFirst(log, log[i]);
      var w := if log[i] in log[..i] then i - 1 else k;
      if log[i] in log[..i] {
        RemoveFirstOfPrefix(log, i);
      } else {
        RemoveFirstAt(log, i);
      }
      assert next[w].uid == uid;
      if i + 1 <= |next| {
        assert next[..i + 1][w].uid == uid;
        LoopKeepsEarlierMention(next, uid, i + 1);
      } else {
        assert RemoveWhileIterating(next, uid, i + 1) == next;
      }
    } else {
      assert log[..i + 1][k].uid == uid;
      LoopKeepsEarlierMention(log, uid, i + 1);
    }
  }

  /** An equal entry further left is the one removed, which moves `log[i]` to position `i - 1`. */
  lemma {:induction false} RemoveFirstOfPrefix(log: seq<Entry>, i: nat)
    requires i < |log| && log[i] in log[..i]
    ensures RemoveFirst(log, log[i])[i - 1] == log[i]
  {
    if log[0] != log[i] {
      assert log[1..][..i - 1] == log[..i][1..];
      RemoveFirstOfPrefix(log[1..], i - 1);
    }
  }

  lemma {:induction false} WithoutSplits(a: seq<Entry>, b: seq<Entry>, uid: string)
    ensures Without(a + b, uid) == Without(a, uid) + Without(b, uid)
  {
    if a == [] {
      assert a + b == b;
    } else {
      assert (a + b)[1..] == a[1..] + b;
      WithoutSplits(a[1..], b, uid);
    }
  }

  lemma {:induction false} WithoutAbsent(log: seq<Entry>, uid: string)
    requires !Mentions(log, uid)
    ensures Without(log, uid) == log
  {
    if log != [] {
      assert forall k :: 0 <= k < |log[1..]| ==> log[1..][k] == log[k + 1];
      WithoutAbsent(log[1..], uid);
    }
  }

  /** Removing the entry at `i`, with nothing of that object before it. */
  lemma RemoveAtClean(log: seq<Entry>, uid: string, i: nat)
    requires i < |log| && !Mentions(log[..i], uid) && log[i].uid == uid
    ensures RemoveFirst(log, log[i]) == log[..i] + log[i + 1..]
    ensures Without(log[..i] + log[i + 1..], uid) == Without(log, uid)
  {
    var before := log[..i];
    assert forall k :: 0 <= k < |before| ==> before[k].uid != uid;
    RemoveFirstAt(log, i);
    WithoutOfRemoved(log, uid, i);
  }

  lemma CleanExtends(log: seq<Entry>, uid: string, i: nat)
    requires i < |log| && !Mentions(log[..i], uid) && log[i].uid != uid
    ensures !Mentions(log[..i + 1], uid)
  {
    var longer := log[..i + 1];
    forall k | 0 <= k < |longer| ensures longer[k].uid != uid {
      if k < i { assert log[..i][k].uid != uid; }
    }
  }

  lemma {:induction false} LoopFromClean(log: seq<Entry>, uid: string, i: nat)
    requires i <= |log| && !Mentions(log[..i], uid)
    ensures NoAdjacentPair(log[i..], uid) ==> RemoveWhileIterating(log, uid, i) == Without(log, uid)
    ensures !NoAdjacentPair(log[i..], uid) ==> Mentions(RemoveWhileIterating(log, uid, i), uid)
    decreases |log| - i
  {
    if i == |log| {
      assert log[..i] == log;
      WithoutAbsent(log, uid);
    } else if log[i].uid == uid {
      RemoveAtClean(log, uid, i);
      LoopFromCleanMatch(log, uid, i);
    } else {
      CleanExtends(log, uid, i);
      LoopFromClean(log, uid, i + 1);
      SplitFirstPair(log[i..], uid);
      assert log[i + 1..] == log[i..][1..];
    }
  }

  lemma {:induction false} LoopFromCleanMatch(log: seq<Entry>, uid: string, i: nat)
    requires i < |log| && !Mentions(log[..i], uid) && log[i].uid == uid
    requires RemoveFirst(log, log[i]) == log[..i] + log[i + 1..]
    requires Without(log[..i] + log[i + 1..], uid) == Without(log, uid)
    ensures NoAdjacentPair(log[i..], uid) ==> RemoveWhileIterating(log, uid, i) == Without(log, uid)
    ensures !NoAdjacentPair(log[i..], uid) ==> Mentions(RemoveWhileIterating(log, uid, i), uid)
    decreases |log| - i, 0
  {
    var next := log[..i] + log[i + 1..];
    assert next[..i] == log[..i];
    SplitFirstPair(log[i..], uid);
    if i + 1 == |log| {
      assert next == log[..i];
      WithoutAbsent(next, uid);
    } else if log[i + 1].uid == uid {
      assert next[..i + 1][i].uid == uid;
      LoopKeepsEarlierMention(next, uid, i + 1);
    } else {
      CleanExtends(next, uid, i);
      LoopFromClean(next, uid, i + 1);
      SplitFirstPair(log[i..][1..], uid);
      assert next[i + 1..] == log[i..][1..][1..];
    }
  }

  lemma WithoutOfRemoved(log: seq<Entry>, uid: string, i: nat)
    requires i < |log| && log[i].uid == uid
    ensures Without(log[..i] + log[i + 1..], uid) == Without(log, uid)
  {
    assert log == log[..i] + log[i..];
    WithoutSplits(log[..i], log[i..], uid);
    WithoutSplits(log[..i], log[i + 1..], uid);
  }

  lemma SplitFirstPair(log: seq<Entry>, uid: string)
    requires |log| >= 1
    ensures NoAdjacentPair(log, uid)
       <==> NoAdjacentPair(log[1..], uid) && (|log| >= 2 ==> log[0].uid != uid || log[1].uid != uid)
  {
    var tail := log[1..];
    if NoAdjacentPair(tail, uid) && (|log| >= 2 ==> log[0].uid != uid || log[1].uid != uid) {
      forall k | 0 <= k < |log| - 1 ensures log[k].uid != uid || log[k + 1].uid != uid {
        if k > 0 { assert tail[k - 1].uid != uid || tail[k].uid != uid; }
      }
    }
    if NoAdjacentPair(log, uid) {
      forall k | 0 <= k < |tail| - 1 ensures tail[k].uid != uid || tail[k + 1].uid != uid {
        assert log[k + 1].uid != uid || log[k + 2].uid != uid;
      }
    }
  }

  /** Removing from the list under iteration deduplicates exactly when no two neighbours share the
      UID; then the other entries stay in order. */
  lemma DeduplicationExact(log: seq<Entry>, uid: string)
    ensures NoAdjacentPair(log, uid) <==> !Mentions(RemoveWhileIterating(log, uid, 0), uid)
    ensures NoAdjacentPair(log, uid) ==> RemoveWhileIterating(log, uid, 0) == Without(log, uid)
  {
    assert log[0..] == log && log[..0] == [];
    LoopFromClean(log, uid, 0);
    var rest := Without(log, uid);
    WithoutMembers(log, uid);
    forall k | 0 <= k < |rest| ensures rest[k].uid != uid { assert rest[k] in rest; }
  }

  // ----- the untruncated most-recently-used list -----

  /** One tracked touch by the user, with the cutoff in force when it was logged. */
  datatype TouchEvent = TouchEvent(uid: string, now: int, cutoff: int)

  ghost predicate ClockMonotone(history: seq<TouchEvent>) {
    forall i, j :: 0 <= i < j < |history| ==> history[i].now <= history[j].now
  }

  /** The stored log after a history of touches, starting from an empty one. */
  function Stored(history: seq<TouchEvent>): seq<Entry> {
    if history == [] then []
    else
      var e := history[|history| - 1];
      Touch(Stored(history[..|history| - 1]), e.uid, e.now, e.cutoff)
  }

  ghost predicate TouchedLater(history: seq<TouchEvent>, k: nat)
    requires k < |history|
  {
    exists j :: k < j < |history| && history[j].uid == history[k].uid
  }

  ghost function LastTouches(history: seq<TouchEvent>): set<nat> {
    set k: nat | k < |history| && !TouchedLater(history, k)
  }

  function EntryOf(e: TouchEvent): Entry { Entry(e.uid, e.now) }

  /** The chosen ones of the first `n` touches, newest first. */
  function Collect(history: seq<TouchEvent>, n: nat, chosen: set<nat>): seq<Entry>
    requires n <= |history|
  {
    if n == 0 then []
    else
      var k := n - 1;
      OnlyIf(k in chosen, EntryOf(history[k])) + Collect(history, k, chosen)
  }

  /** The touches that are their object's last touch, newest first. */
  ghost function MostRecentlyUsed(history: seq<TouchEvent>): seq<Entry> {
    Collect(history, |history|, LastTouches(history))
  }

  lemma TouchedLaterAfterOneMore(history: seq<TouchEvent>, e: TouchEvent, k: nat)
    requires k < |history|
    ensures TouchedLater(history + [e], k) <==> TouchedLater(history, k) || history[k].uid == e.uid
  {
    var longer := history + [e];
    if history[k].uid == e.uid {
      assert longer[|history|].uid == longer[k].uid;
    } else if TouchedLater(history, k) {
      var j :| k < j < |history| && history[j].uid == history[k].uid;
      assert longer[j].uid == longer[k].uid;
    }
  }

  function OfObject(history: seq<TouchEvent>, uid: string): set<nat> {
    set k: nat | k < |history| && history[k].uid == uid
  }

  lemma LastTouchesAfterOneMore(history: seq<TouchEvent>, e: TouchEvent)
    ensures LastTouches(history + [e]) == LastTouches(history) - OfObject(history, e.uid) + {|history|}
  {
    var longer := history + [e];
    forall k: nat | k < |history|
      ensures k in LastTouches(longer) <==> k in LastTouches(history) && k !in OfObject(history, e.uid)
    {
      TouchedLaterAfterOneMore(history, e, k);
    }
    assert !TouchedLater(longer, |history|);
  }

  function OnlyIf(condition: bool, entry: Entry): seq<Entry> {
    if condition then [entry] else []
  }

  lemma WithoutStep(condition: bool, entry: Entry, rest: seq<Entry>, uid: string)
    ensures Without(OnlyIf(condition, entry) + rest, uid)
       == OnlyIf(condition && entry.uid != uid, entry) + Without(rest, uid)
  {
    if condition {
      assert ([entry] + rest)[1..] == rest;
    } else {
      assert [] + rest == rest;
    }
  }

  ghost predicate IsWithout(rest: seq<Entry>, log: seq<Entry>, uid: string) {
    rest == Without(log, uid)
  }

  ghost predicate CollectsWithout(history: seq<TouchEvent>, n: nat, chosen: set<nat>, uid: string)
    requires n <= |history|
  {
    IsWithout(Collect(history, n, chosen - OfObject(history, uid)), Collect(history, n, chosen), uid)
  }

  lemma IsWithoutStep(x': seq<Entry>, x: seq<Entry>, rest': seq<Entry>, rest: seq<Entry>,
                      kept: bool, condition: bool, entry: Entry, uid: string)
    requires x == OnlyIf(condition, entry) + rest && x' == OnlyIf(kept, entry) + rest'
    requires kept == (condition && entry.uid != uid) && IsWithout(rest', rest, uid)
    ensures IsWithout(x', x, uid)
  {
    WithoutStep(condition, entry, rest, uid);
  }

  lemma CollectUnfolds(history: seq<TouchEvent>, n: nat, chosen: set<nat>)
    requires 0 < n <= |history|
    ensures Collect(history, n, chosen)
         == OnlyIf(n - 1 in chosen, EntryOf(history[n - 1])) + Collect(history, n - 1, chosen)
  {
  }

  lemma {:induction false} CollectWithout(history: seq<TouchEvent>, n: nat, chosen: set<nat>, uid: string)
    requires n <= |history|
    ensures CollectsWithout(history, n, chosen, uid)
  {
    if n > 0 {
      var kept := chosen - OfObject(history, uid);
      CollectWithout(history, n - 1, chosen, uid);
      CollectUnfolds(history, n, chosen);
      CollectUnfolds(history, n, kept);
      IsWithoutStep(Collect(history, n, kept), Collect(history, n, chosen),
                    Collect(history, n - 1, kept), Collect(history, n - 1, chosen),
                    n - 1 in kept, n - 1 in chosen, EntryOf(history[n - 1]), uid);
    }
  }

  lemma {:induction false} CollectSame(a: seq<TouchEvent>, b: seq<TouchEvent>, n: nat,
                                     chosen: set<nat>, chosen': set<nat>)
    requires n <= |a| && n <= |b| && a[..n] == b[..n]
    requires forall k: nat :: k < n ==> (k in chosen <==> k in chosen')
    ensures Collect(a, n, chosen) == Collect(b, n, chosen')
  {
    if n > 0 {
      assert a[..n - 1] == a[..n][..n - 1] && b[..n - 1] == b[..n][..n - 1];
      assert a[n - 1] == a[..n][n - 1] && b[n - 1] == b[..n][n - 1];
      CollectSame(a, b, n - 1, chosen, chosen');
    }
  }

  lemma MostRecentlyUsedStep(history: seq<TouchEvent>, e: TouchEvent)
    ensures MostRecentlyUsed(history + [e])
         == [Entry(e.uid, e.now)] + Without(MostRecentlyUsed(history), e.uid)
  {
    var longer, n := history + [e], |history|;
    var kept := LastTouches(history) - OfObject(history, e.uid);
    LastTouchesAfterOneMore(history, e);
    CollectWithout(history, n, LastTouches(history), e.uid);
    assert longer[..n] == history[..n];
    CollectSame(longer, history, n, kept + {n}, kept);
  }

  ghost predicate NotNewerThan(log: seq<Entry>, now: int) {
    forall k :: 0 <= k < |log| ==> log[k].lastTouched <= now
  }

  lemma {:induction false} WithoutKeeps(log: seq<Entry>, uid: string)
    requires UniqueUids(log) && Sorted(log, NewerOrSame)
    ensures UniqueUids(Without(log, uid)) && Sorted(Without(log, uid), NewerOrSame)
  {
    if log != [] {
      WithoutKeeps(log[1..], uid);
      WithoutMembers(log[1..], uid);
      var tail := Without(log[1..], uid);
      forall k | 0 <= k < |tail| ensures tail[k].uid != log[0].uid && NewerOrSame(log[0], tail[k]) {
        assert tail[k] in log[1..];
        var m :| 0 <= m < |log[1..]| && log[1..][m] == tail[k];
        assert log[m + 1] == tail[k];
      }
    }
  }

  ghost predicate WellFormed(log: seq<Entry>, now: int) {
    UniqueUids(log) && Sorted(log, NewerOrSame) && NotNewerThan(log, now)
  }

  lemma TouchWellFormed(log: seq<Entry>, e: Entry)
    requires WellFormed(log, e.lastTouched)
    ensures WellFormed([e] + Without(log, e.uid), e.lastTouched)
  {
    WithoutKeeps(log, e.uid);
    WithoutMembers(log, e.uid);
    var rest := Without(log, e.uid);
    forall k | 0 <= k < |rest| ensures rest[k].lastTouched <= e.lastTouched && rest[k].uid != e.uid {
      assert rest[k] in log;
    }
  }

  lemma {:induction false} MostRecentlyUsedWellFormed(history: seq<TouchEvent>, now: int)
    requires ClockMonotone(history) && (history != [] ==> history[|history| - 1].now <= now)
    ensures WellFormed(MostRecentlyUsed(history), now)
  {
    if history != [] {
      var init, e := history[..|history| - 1], history[|history| - 1];
      assert history == init + [e];
      MostRecentlyUsedWellFormed(init, e.now);
      MostRecentlyUsedStep(init, e);
      TouchWellFormed(MostRecentlyUsed(init), Entry(e.uid, e.now));
    }
  }

  lemma {:induction false} WithoutPrefix(shorter: seq<Entry>, longer: seq<Entry>, uid: string)
    requires shorter <= longer && UniqueUids(longer)
    ensures Without(shorter, uid) <= Without(longer, uid)
    ensures |Without(shorter, uid)| >= |shorter| - 1
    ensures Mentions(longer, uid) && !Mentions(shorter, uid) ==> |Without(shorter, uid)| == |shorter|
  {
    assert longer == shorter + longer[|shorter|..];
    WithoutSplits(shorter, longer[|shorter|..], uid);
    WithoutLength(shorter, uid);
    if !Mentions(shorter, uid) { WithoutAbsent(shorter, uid); }
  }

  lemma {:induction false} WithoutLength(log: seq<Entry>, uid: string)
    requires UniqueUids(log)
    ensures |Without(log, uid)| >= |log| - 1
  {
    if log != [] {
      if log[0].uid == uid {
        assert forall k :: 0 <= k < |log[1..]| ==> log[1..][k] == log[k + 1];
        WithoutAbsent(log[1..], uid);
      } else {
        WithoutLength(log[1..], uid);
      }
    }
  }

  function SmallestCutoff(history: seq<TouchEvent>): int
    requires history != []
  {
    var n := |history| - 1;
    if n == 0 then history[0].cutoff else Min(SmallestCutoff(history[..n]), history[n].cutoff)
  }

  /** On a prefix of a well-formed list a touch is: drop the object, put it in front, truncate. */
  lemma TouchOfPrefix(log: seq<Entry>, full: seq<Entry>, e: TouchEvent)
    requires log <= full && WellFormed(full, e.now)
    ensures Touch(log, e.uid, e.now, e.cutoff)
         == Take([Entry(e.uid, e.now)] + Without(log, e.uid), e.cutoff)
  {
    DeduplicationExact(log, e.uid);
    TouchWellFormed(log, Entry(e.uid, e.now));
    StableSortIdentity([Entry(e.uid, e.now)] + Without(log, e.uid), NewerOrSame);
  }

  /** Truncation keeps the log the front of the full list, and as long as its cutoffs allow. */
  lemma TouchStaysPrefix(log: seq<Entry>, full: seq<Entry>, e: TouchEvent, bound: int)
    requires log <= full && WellFormed(full, e.now)
    requires |log| >= Min(|full|, bound)
    ensures var full' := [Entry(e.uid, e.now)] + Without(full, e.uid);
      var log' := Touch(log, e.uid, e.now, e.cutoff);
      log' <= full' && |log'| >= Min(|full'|, Min(bound, e.cutoff))
  {
    TouchOfPrefix(log, full, e);
    WithoutPrefix(log, full, e.uid);
    if log == full || Mentions(log, e.uid) {
    } else {
      WithoutAbsent(log, e.uid);
    }
  }

  lemma PrefixWellFormed(log: seq<Entry>, full: seq<Entry>)
    requires log <= full && UniqueUids(full) && Sorted(full, NewerOrSame)
    ensures UniqueUids(log) && Sorted(log, NewerOrSame)
  {
    assert forall k :: 0 <= k < |log| ==> log[k] == full[k];
  }

  lemma StoredStep(init: seq<TouchEvent>, e: TouchEvent)
    ensures Stored(init + [e]) == Touch(Stored(init), e.uid, e.now, e.cutoff)
    ensures SmallestCutoff(init + [e]) == if init == [] then e.cutoff else Min(SmallestCutoff(init), e.cutoff)
  {
    assert (init + [e])[..|init|] == init;
  }

  /** The stored log is the front of the untruncated list, at least as long as its cutoffs allow. */
  ghost predicate IsFront(history: seq<TouchEvent>) {
    && Stored(history) <= MostRecentlyUsed(history)
    && (history != [] ==> |Stored(history)| >= Min(|MostRecentlyUsed(history)|, SmallestCutoff(history)))
  }

  lemma OneMoreTouch(init: seq<TouchEvent>, e: TouchEvent)
    requires IsFront(init) && WellFormed(MostRecentlyUsed(init), e.now)
    ensures IsFront(init + [e])
  {
    MostRecentlyUsedStep(init, e);
    StoredStep(init, e);
    TouchStaysPrefix(Stored(init), MostRecentlyUsed(init), e, if init == [] then e.cutoff else SmallestCutoff(init));
  }

  lemma {:induction false} StoredIsFront(history: seq<TouchEvent>)
    requires ClockMonotone(history)
    ensures IsFront(history)
  {
    if history != [] {
      var init, e := history[..|history| - 1], history[|history| - 1];
      StoredIsFront(init);
      MostRecentlyUsedWellFormed(init, e.now);
      OneMoreTouch(init, e);
      assert history == init + [e];
    }
  }

  /** Whole-run theorem: whatever the cutoffs, the stored log is the front of the untruncated list,
      at least as long as the smallest cutoff allows, with unique UIDs and newest first. */
  lemma StoredIsPrefixOfMostRecentlyUsed(history: seq<TouchEvent>)
    requires ClockMonotone(history)
    ensures Stored(history) <= MostRecentlyUsed(history)
    ensures history != [] ==>
      |Stored(history)| >= Min(|MostRecentlyUsed(history)|, SmallestCutoff(history))
    ensures UniqueUids(Stored(history)) && Sorted(Stored(history), NewerOrSame)
  {
    StoredIsFront(history);
    MostRecentlyUsedWellFormed(history, if history == [] then 0 else history[|history| - 1].now);
    PrefixWellFormed(Stored(history), MostRecentlyUsed(history));
  }

  /** Even from a damaged log a touch leaves the list sorted newest first. */
  lemma TouchSelfCorrects(log: seq<Entry>, uid: string, now: int, cutoff: int)
    ensures Sorted(Touch(log, uid, now, cutoff), NewerOrSame)
  {
    assert TotalPreorder(NewerOrSame);
    StableSortCorrect([Entry(uid, now)] + RemoveWhileIterating(log, uid, 0), NewerOrSame);
  }
}
