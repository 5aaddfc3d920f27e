/** The reader of the touched log: the recently touched documents minus the checked out ones. */
module RecentlyTouched {
  import opened Collections
  import opened TouchedLog

  /** A log entry that the reader lists: resolvable in the catalog and not checked out. */
  predicate Visible(e: Entry, checkedOut: seq<string>, indexed: set<string>) {
    e.uid in indexed && e.uid !in checkedOut
  }

  function VisibleEntries(log: seq<Entry>, checkedOut: seq<string>, indexed: set<string>): (r: seq<Entry>)
    ensures |r| <= |log|
    ensures forall e :: e in r <==> e in log && Visible(e, checkedOut, indexed)
  {
    if log == [] then []
    else (if Visible(log[0], checkedOut, indexed) then [log[0]] else [])
         + VisibleEntries(log[1..], checkedOut, indexed)
  }

  function Shown(log: seq<Entry>, checkedOut: seq<string>, indexed: set<string>, limit: int): seq<Entry> {
    Take(VisibleEntries(log, checkedOut, indexed), limit)
  }

  /** The catalog as far as the reader uses it: the tracked documents it can find, and for each user
      the documents he has checked out, latest modification first. */
  datatype Catalog = Catalog(indexed: set<string>, checkedOut: map<string, seq<string>>)
  {
    function CheckedOutBy(userId: string): seq<string> {
      if userId in checkedOut then checkedOut[userId] else []
    }
  }

  class RecentlyTouchedGet {
    var checkedOutBrains: Option<seq<string>>

    constructor ()
      ensures checkedOutBrains == None
    {
      checkedOutBrains := None;
    }

    /** Memoized: both lists of one reply are built from the same answer. */
    method GetCheckedOutBrains(catalog: Catalog, userId: string) returns (brains: seq<string>)
      modifies this
      ensures checkedOutBrains == Some(brains)
      ensures brains == match old(checkedOutBrains) case Some(b) => b case None => catalog.CheckedOutBy(userId)
    {
      if checkedOutBrains.None? {
        checkedOutBrains := Some(catalog.CheckedOutBy(userId));
      }
      brains := checkedOutBrains.value;
    }

    method GetRecentlyTouched(logs: map<string, seq<Entry>>, catalog: Catalog, userId: string, limit: int)
      returns (entries: seq<Entry>)
      modifies this
      ensures checkedOutBrains.Some?
      ensures checkedOutBrains
           == if old(checkedOutBrains).Some? then old(checkedOutBrains) else Some(catalog.CheckedOutBy(userId))
      ensures entries == Shown(if userId in logs then logs[userId] else [],
                               checkedOutBrains.value, catalog.indexed, limit)
    {
      var log := if userId in logs then logs[userId] else [];
      var checkedOutUids := GetCheckedOutBrains(catalog, userId);
      var touchedBrains := set e | e in log && Visible(e, checkedOutUids, catalog.indexed) :: e.uid;
      assert forall e :: e in log ==> (e.uid in touchedBrains <==> Visible(e, checkedOutUids, catalog.indexed));
      entries := EntriesWithBrain(log, touchedBrains, checkedOutUids, catalog.indexed);
      entries := Take(entries, limit);
    }

    static method EntriesWithBrain(log: seq<Entry>, touchedBrains: set<string>,
                                   ghost checkedOut: seq<string>, ghost indexed: set<string>)
      returns (entries: seq<Entry>)
      requires forall e :: e in log ==> (e.uid in touchedBrains <==> Visible(e, checkedOut, indexed))
      ensures entries == VisibleEntries(log, checkedOut, indexed)
    {
      entries := [];
      for i := 0 to |log|
        invariant entries == VisibleEntries(log[..i], checkedOut, indexed)
      {
        VisibleSplits(log[..i], [log[i]], checkedOut, indexed);
        assert log[..i + 1] == log[..i] + [log[i]];
        assert log[i] in log;
        if log[i].uid in touchedBrains {
          entries := entries + [log[i]];
        }
      }
      assert log[..|log|] == log;
    }

    /** One reply: the two lists share no document. */
    method Reply(logs: map<string, seq<Entry>>, catalog: Catalog, userId: string, limit: int)
      returns (checkedOut: seq<string>, touched: seq<Entry>)
      modifies this
      requires checkedOutBrains == None
      ensures checkedOut == if userId in catalog.checkedOut then catalog.checkedOut[userId] else []
      ensures touched == Shown(if userId in logs then logs[userId] else [], checkedOut, catalog.indexed, limit)
      ensures forall e :: e in touched ==> e.uid !in checkedOut
    {
      checkedOut := GetCheckedOutBrains(catalog, userId);
      touched := GetRecentlyTouched(logs, catalog, userId, limit);
      ShownDisjoint(if userId in logs then logs[userId] else [], checkedOut, catalog.indexed, limit);
    }
  }

  lemma ShownDisjoint(log: seq<Entry>, checkedOut: seq<string>, indexed: set<string>, limit: int)
    ensures forall e :: e in Shown(log, checkedOut, indexed, limit) ==> e in log && e.uid !in checkedOut
  {
    var visible := VisibleEntries(log, checkedOut, indexed);
    forall e | e in Take(visible, limit) ensures e in visible { }
  }

  /** Entry by entry: what the catalog knows and is not checked out is shown, in the order of the log,
      until the limit is reached. */
  lemma ShownStep(entry: Entry, log: seq<Entry>, checkedOut: seq<string>, indexed: set<string>, limit: nat)
    ensures Shown([], checkedOut, indexed, limit) == []
    ensures Shown([entry] + log, checkedOut, indexed, limit)
         == if limit == 0 then []
            else if entry.uid in indexed && entry.uid !in checkedOut then
              [entry] + Shown(log, checkedOut, indexed, limit - 1)
            else Shown(log, checkedOut, indexed, limit)
  {
    var visible := VisibleEntries(log, checkedOut, indexed);
    assert ([entry] + log)[1..] == log;
    if limit > 0 && Visible(entry, checkedOut, indexed) {
      assert Take([entry] + visible, limit) == [entry] + Take(visible, limit - 1);
    } else {
      assert [] + visible == visible;
    }
  }

  // ----- truncating the log is invisible -----

  lemma {:induction false} VisibleSplits(a: seq<Entry>, b: seq<Entry>, checkedOut: seq<string>, indexed: set<string>)
    ensures VisibleEntries(a + b, checkedOut, indexed)
         == VisibleEntries(a, checkedOut, indexed) + VisibleEntries(b, checkedOut, indexed)
  {
    if a == [] {
      assert a + b == b;
    } else {
      assert (a + b)[1..] == a[1..] + b;
      VisibleSplits(a[1..], b, checkedOut, indexed);
    }
  }

  /** Truncation is invisible exactly when enough visible entries remain or none were cut off. */
  lemma TruncationInvisibleExactly(log: seq<Entry>, checkedOut: seq<string>, indexed: set<string>,
                                   limit: nat, cutoff: nat)
    requires cutoff <= |log|
    ensures Shown(log[..cutoff], checkedOut, indexed, limit) == Shown(log, checkedOut, indexed, limit)
       <==> |VisibleEntries(log[..cutoff], checkedOut, indexed)| >= limit
            || VisibleEntries(log[cutoff..], checkedOut, indexed) == []
  {
    var front := VisibleEntries(log[..cutoff], checkedOut, indexed);
    var back := VisibleEntries(log[cutoff..], checkedOut, indexed);
    assert log == log[..cutoff] + log[cutoff..];
    VisibleSplits(log[..cutoff], log[cutoff..], checkedOut, indexed);
    if |front| >= limit {
      assert Take(front + back, limit) == Take(front, limit);
    } else if back == [] {
      assert front + back == front;
    } else {
      assert |Take(front + back, limit)| > |Take(front, limit)|;
    }
  }

  /** Pigeonhole: with unique UIDs, at most one entry is hidden per checked out document. */
  lemma {:induction false} HiddenAtMostCheckedOut(log: seq<Entry>, checkedOut: seq<string>, indexed: set<string>)
    requires UniqueUids(log)
    requires forall e :: e in log ==> e.uid in indexed
    ensures |log| <= |VisibleEntries(log, checkedOut, indexed)| + |checkedOut|
  {
    if log != [] {
      var tail := log[1..];
      if log[0].uid in checkedOut {
        var rest := RemoveFirst(checkedOut, log[0].uid);
        HiddenAtMostCheckedOut(tail, rest, indexed);
        HiddenTailSame(log, checkedOut);
        SameVisible(tail, rest, checkedOut, indexed);
      } else {
        HiddenAtMostCheckedOut(tail, checkedOut, indexed);
      }
    }
  }

  lemma HiddenTailSame(log: seq<Entry>, checkedOut: seq<string>)
    requires log != [] && UniqueUids(log) && log[0].uid in checkedOut
    ensures forall e :: e in log[1..] ==> (e.uid in RemoveFirst(checkedOut, log[0].uid) <==> e.uid in checkedOut)
  {
    var tail, rest := log[1..], RemoveFirst(checkedOut, log[0].uid);
    RemoveFirstMultiset(checkedOut, log[0].uid);
    forall e | e in tail ensures e.uid in rest <==> e.uid in checkedOut {
      var k :| 0 <= k < |tail| && tail[k] == e;
      assert log[k + 1].uid != log[0].uid;
      assert e.uid in multiset(rest) <==> e.uid in multiset(checkedOut);
    }
  }

  lemma {:induction false} SameVisible(log: seq<Entry>, a: seq<string>, b: seq<string>, indexed: set<string>)
    requires forall e :: e in log ==> (e.uid in a <==> e.uid in b)
    ensures VisibleEntries(log, a, indexed) == VisibleEntries(log, b, indexed)
  {
    if log != [] {
      assert log[0] in log;
      SameVisible(log[1..], a, b, indexed);
    }
  }

  /** Any prefix of at least `limit + |checkedOut|` entries shows the same as the whole log. */
  lemma LongPrefixShowsAll(log: seq<Entry>, full: seq<Entry>, checkedOut: seq<string>, indexed: set<string>,
                           limit: nat)
    requires log <= full && UniqueUids(full)
    requires |log| >= Min(|full|, limit + |checkedOut|)
    requires forall e :: e in full ==> e.uid in indexed
    ensures Shown(log, checkedOut, indexed, limit) == Shown(full, checkedOut, indexed, limit)
  {
    assert log == full[..|log|];
    TruncationInvisibleExactly(full, checkedOut, indexed, limit, |log|);
    if |log| < |full| {
      HiddenAtMostCheckedOut(log, checkedOut, indexed);
    } else {
      assert full[|log|..] == [];
    }
  }

  /** Display agreement over whole runs: what is shown from the truncated log is what would be shown
      had the log never been truncated. */
  lemma RunShowsUntruncated(history: seq<TouchEvent>, checkedOut: seq<string>, indexed: set<string>, limit: nat)
    requires history != [] && ClockMonotone(history)
    requires limit + |checkedOut| <= SmallestCutoff(history)
    requires forall e :: e in MostRecentlyUsed(history) ==> e.uid in indexed
    ensures Shown(Stored(history), checkedOut, indexed, limit)
         == Shown(MostRecentlyUsed(history), checkedOut, indexed, limit)
  {
    StoredIsPrefixOfMostRecentlyUsed(history);
    MostRecentlyUsedWellFormed(history, history[|history| - 1].now);
    LongPrefixShowsAll(Stored(history), MostRecentlyUsed(history), checkedOut, indexed, limit);
  }

  /** The same for any cutoffs, checked out documents and deleted documents: truncation is invisible
      exactly when enough visible entries are stored or no visible one was ever dropped. */
  lemma RunShowsUntruncatedExactly(history: seq<TouchEvent>, checkedOut: seq<string>, indexed: set<string>, limit: nat)
    requires ClockMonotone(history)
    ensures |Stored(history)| <= |MostRecentlyUsed(history)|
    ensures Shown(Stored(history), checkedOut, indexed, limit)
         == Shown(MostRecentlyUsed(history), checkedOut, indexed, limit)
       <==> |VisibleEntries(Stored(history), checkedOut, indexed)| >= limit
            || VisibleEntries(MostRecentlyUsed(history)[|Stored(history)|..], checkedOut, indexed) == []
  {
    StoredIsPrefixOfMostRecentlyUsed(history);
    var log, full := Stored(history), MostRecentlyUsed(history);
    assert log == full[..|log|];
    TruncationInvisibleExactly(full, checkedOut, indexed, limit, |log|);
  }

  /** The cutoff does not account for logged documents that no longer exist: with limit 1, a deleted
      document in front hides the only entry that could be shown. */
  lemma DeletedDocumentBreaksAgreement()
    ensures var log := [Entry("deleted", 2), Entry("kept", 1)];
      Shown(Take(log, 1 + 0), [], {"kept"}, 1) != Shown(log, [], {"kept"}, 1)
  {
    var log := [Entry("deleted", 2), Entry("kept", 1)];
    assert Take(log, 1)[1..] == [] && log[1..][1..] == [];
    assert VisibleEntries(log[1..], [], {"kept"}) == [Entry("kept", 1)];
    assert VisibleEntries(log, [], {"kept"}) == [Entry("kept", 1)];
    assert VisibleEntries(Take(log, 1), [], {"kept"}) == [];
  }
}
