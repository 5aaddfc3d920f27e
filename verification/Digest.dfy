/** Digest mails: unsent notifications grouped by user and sent at most once a day. */
module Digest {
  import opened Collections

  const DIGEST_INTERVAL_HOURS := 24
  const DIGEST_TOLERANCE := 1

  /** 23 hours, in seconds. */
  const INTERVAL: int := (DIGEST_INTERVAL_HOURS - DIGEST_TOLERANCE) * 3600

  datatype Notification = Notification(id: int, userid: string, resource: string, isDigest: bool, sentInDigest: bool)

  predicate Unsent(n: Notification) { n.isDigest && !n.sentInDigest }

  function UnsentDigestNotifications(table: seq<Notification>): seq<Notification> {
    if table == [] then []
    else
      var last := table[|table| - 1];
      UnsentDigestNotifications(table[..|table| - 1]) + (if Unsent(last) then [last] else [])
  }

  // ----- grouping -----

  datatype By = ByUser | ByResource

  function KeyOf(n: Notification, grouping: By): string {
    match grouping case ByUser => n.userid case ByResource => n.resource
  }

  /** The notifications of one key, in order. */
  function OfKey(ns: seq<Notification>, key: string, grouping: By): seq<Notification> {
    if ns == [] then []
    else
      var last := ns[|ns| - 1];
      OfKey(ns[..|ns| - 1], key, grouping) + (if KeyOf(last, grouping) == key then [last] else [])
  }

  ghost predicate IsGrouping(data: map<string, seq<Notification>>, ns: seq<Notification>, grouping: By) {
    && (forall key :: key in data <==> exists i :: 0 <= i < |ns| && KeyOf(ns[i], grouping) == key)
    && (forall key :: key in data ==> data[key] == OfKey(ns, key, grouping))
  }

  function Appended(data: map<string, seq<Notification>>, key: string, n: Notification)
    : map<string, seq<Notification>> {
    data[key := if key in data then data[key] + [n] else [n]]
  }

  lemma {:induction false} OfKeyCounts(ns: seq<Notification>, key: string, grouping: By, n: Notification)
    ensures multiset(OfKey(ns, key, grouping))[n] == if KeyOf(n, grouping) == key then multiset(ns)[n] else 0
  {
    if ns != [] {
      var init, last := ns[..|ns| - 1], ns[|ns| - 1];
      OfKeyCounts(init, key, grouping, n);
      assert ns == init + [last];
    }
  }

  lemma OfKeyMembers(ns: seq<Notification>, key: string, grouping: By)
    ensures forall n :: n in OfKey(ns, key, grouping) <==> n in ns && KeyOf(n, grouping) == key
  {
    forall n ensures n in OfKey(ns, key, grouping) <==> n in ns && KeyOf(n, grouping) == key {
      OfKeyCounts(ns, key, grouping, n);
      assert n in OfKey(ns, key, grouping) <==> multiset(OfKey(ns, key, grouping))[n] > 0;
      assert n in ns <==> multiset(ns)[n] > 0;
    }
  }

  lemma OfKeyEmpty(ns: seq<Notification>, key: string, grouping: By)
    ensures OfKey(ns, key, grouping) == [] <==> forall i :: 0 <= i < |ns| ==> KeyOf(ns[i], grouping) != key
  {
    OfKeyMembers(ns, key, grouping);
    if OfKey(ns, key, grouping) != [] {
      assert OfKey(ns, key, grouping)[0] in ns;
    }
    forall i | 0 <= i < |ns| && KeyOf(ns[i], grouping) == key ensures OfKey(ns, key, grouping) != [] {
      assert ns[i] in OfKey(ns, key, grouping);
    }
  }

  lemma GroupingStep(data: map<string, seq<Notification>>, ns: seq<Notification>, n: Notification, grouping: By)
    requires IsGrouping(data, ns, grouping)
    ensures IsGrouping(Appended(data, KeyOf(n, grouping), n), ns + [n], grouping)
  {
    var data', all := Appended(data, KeyOf(n, grouping), n), ns + [n];
    OfKeyEmpty(ns, KeyOf(n, grouping), grouping);
    forall key ensures key in data' <==> exists i :: 0 <= i < |all| && KeyOf(all[i], grouping) == key {
      if key in data {
        var i :| 0 <= i < |ns| && KeyOf(ns[i], grouping) == key;
        assert KeyOf(all[i], grouping) == key;
      }
      if i :| 0 <= i < |all| && KeyOf(all[i], grouping) == key {
        if i < |ns| { assert KeyOf(ns[i], grouping) == key; }
      }
      assert KeyOf(all[|ns|], grouping) == KeyOf(n, grouping);
    }
    forall key | key in data' ensures data'[key] == OfKey(all, key, grouping) { }
  }

  function Grouped(ns: seq<Notification>, grouping: By): map<string, seq<Notification>> {
    if ns == [] then map[]
    else
      var last := ns[|ns| - 1];
      Appended(Grouped(ns[..|ns| - 1], grouping), KeyOf(last, grouping), last)
  }

  lemma GroupedNext(ns: seq<Notification>, i: nat, grouping: By)
    requires i < |ns|
    ensures Grouped(ns[..i + 1], grouping) == Appended(Grouped(ns[..i], grouping), KeyOf(ns[i], grouping), ns[i])
  {
    assert ns[..i + 1][..i] == ns[..i];
  }

  lemma {:induction false} GroupedIsGrouping(ns: seq<Notification>, grouping: By)
    ensures IsGrouping(Grouped(ns, grouping), ns, grouping)
  {
    if ns != [] {
      var init, last := ns[..|ns| - 1], ns[|ns| - 1];
      GroupedIsGrouping(init, grouping);
      GroupingStep(Grouped(init, grouping), init, last, grouping);
      assert ns == init + [last];
    }
  }

  /** The groups are those of the users or of the resources. */
  lemma GroupsByField(data: map<string, seq<Notification>>, ns: seq<Notification>, n: Notification, key: string)
    ensures IsGrouping(data, ns, ByUser) ==>
      && (n in ns ==> n.userid in data)
      && (key in data && n in data[key] ==> n in ns && n.userid == key)
    ensures IsGrouping(data, ns, ByResource) ==>
      && (n in ns ==> n.resource in data)
      && (key in data && n in data[key] ==> n in ns && n.resource == key)
  {
    OfKeyMembers(ns, key, ByUser);
    OfKeyMembers(ns, key, ByResource);
    if n in ns {
      var i :| 0 <= i < |ns| && ns[i] == n;
      assert KeyOf(ns[i], ByUser) == n.userid && KeyOf(ns[i], ByResource) == n.resource;
    }
  }

  /** Grouping is a partition that keeps the order: each notification is in the group of its key as
      often as in the input, and in no other group. */
  lemma GroupingPartitions(data: map<string, seq<Notification>>, ns: seq<Notification>, grouping: By,
                           n: Notification, key: string)
    requires IsGrouping(data, ns, grouping) && n in ns
    ensures KeyOf(n, grouping) in data && multiset(data[KeyOf(n, grouping)])[n] == multiset(ns)[n]
    ensures key in data && key != KeyOf(n, grouping) ==> n !in data[key]
  {
    OfKeyCounts(ns, KeyOf(n, grouping), grouping, n);
    OfKeyMembers(ns, key, grouping);
  }

  method GroupByResource(notifications: seq<Notification>) returns (data: map<string, seq<Notification>>)
    ensures IsGrouping(data, notifications, ByResource)
  {
    GroupedIsGrouping(notifications, ByResource);
    data := map[];
    for i := 0 to |notifications|
      invariant data == Grouped(notifications[..i], ByResource)
    {
      var notification := notifications[i];
      GroupedNext(notifications, i, ByResource);
      if notification.resource in data {
        data := data[notification.resource := data[notification.resource] + [notification]];
      } else {
        data := data[notification.resource := [notification]];
      }
    }
    assert notifications[..|notifications|] == notifications;
  }

  method GroupByUser(notifications: seq<Notification>) returns (data: map<string, seq<Notification>>)
    ensures IsGrouping(data, notifications, ByUser)
  {
    GroupedIsGrouping(notifications, ByUser);
    data := map[];
    for i := 0 to |notifications|
      invariant data == Grouped(notifications[..i], ByUser)
    {
      var notification := notifications[i];
      GroupedNext(notifications, i, ByUser);
      if notification.userid in data {
        data := data[notification.userid := data[notification.userid] + [notification]];
      } else {
        data := data[notification.userid := [notification]];
      }
    }
    assert notifications[..|notifications|] == notifications;
  }

  // ----- the mailer -----

  datatype Dispatch = Dispatch(userid: string, time: int, notifications: seq<Notification>)

  /** The notification table, the last dispatch of each user, and the mails sent so far. */
  datatype State = State(table: seq<Notification>, digests: map<string, int>, sent: seq<Dispatch>)

  predicate IntervalExpired(digests: map<string, int>, userid: string, now: int) {
    userid !in digests || digests[userid] <= now - INTERVAL
  }

  function Pending(table: seq<Notification>, userid: string): seq<Notification> {
    OfKey(UnsentDigestNotifications(table), userid, ByUser)
  }

  function MarkSent(table: seq<Notification>, ids: set<int>): (r: seq<Notification>)
    ensures |r| == |table|
    ensures forall i :: 0 <= i < |table| ==>
      r[i] == if table[i].id in ids then table[i].(sentInDigest := true) else table[i]
  {
    seq(|table|, i requires 0 <= i < |table| =>
      if table[i].id in ids then table[i].(sentInDigest := true) else table[i])
  }

  function Ids(ns: seq<Notification>): set<int> {
    set n | n in ns :: n.id
  }

  /** The reading of the clock when a user's interval is checked, and when his mail is recorded. */
  datatype Reading = Reading(check: int, record: int)

  /** One user's turn: nothing at all unless his interval has expired. */
  function SendTo(s: State, userid: string, at: Reading): State {
    if !IntervalExpired(s.digests, userid, at.check) then s
    else
      var ns := Pending(s.table, userid);
      State(MarkSent(s.table, Ids(ns)), s.digests[userid := at.record], s.sent + [Dispatch(userid, at.record, ns)])
  }

  function SendAll(s: State, users: seq<string>, clock: seq<Reading>): State
    requires |users| == |clock|
  {
    if users == [] then s
    else
      var n := |users| - 1;
      SendTo(SendAll(s, users[..n], clock[..n]), users[n], clock[n])
  }

  class DigestMailer {
    var table: seq<Notification>
    var digests: map<string, int>
    ghost var sent: seq<Dispatch>

    ghost function Current(): State
      reads this
    {
      State(table, digests, sent)
    }

    constructor (table: seq<Notification>, digests: map<string, int>)
      ensures this.table == table && this.digests == digests && sent == []
    {
      this.table, this.digests, sent := table, digests, [];
    }

    method GetNotifications() returns (notifications: map<string, seq<Notification>>)
      ensures IsGrouping(notifications, UnsentDigestNotifications(table), ByUser)
    {
      notifications := GroupByUser(UnsentDigestNotifications(table));
    }

    method MarkAsSent(notifications: seq<Notification>)
      modifies `table
      ensures table == MarkSent(old(table), Ids(notifications))
    {
      ghost var before := table;
      assert notifications[..0] == [];
      assert MarkSent(before, {}) == before;
      for i := 0 to |notifications|
        invariant table == MarkSent(before, Ids(notifications[..i]))
      {
        assert notifications[..i + 1] == notifications[..i] + [notifications[i]];
        assert Ids(notifications[..i + 1]) == Ids(notifications[..i]) + {notifications[i].id};
        table := MarkSent(table, {notifications[i].id});
      }
      assert notifications[..|notifications|] == notifications;
    }

    method RecordDigest(userid: string, now: int)
      modifies `digests
      ensures digests == old(digests)[userid := now]
    {
      if userid !in digests {
        digests := digests[userid := now];
      }
      digests := digests[userid := now];
    }

    /** The groups are computed once; each user with unsent notifications gets his turn in the order
        of the dictionary. */
    method SendDigests(users: seq<string>, clock: seq<Reading>)
      requires |users| == |clock| && UniqueIds(table) && AreRecipients(users, table)
      modifies this
      ensures Current() == SendAll(old(Current()), users, clock)
    {
      var groups := GetNotifications();
      ghost var initial := Current();
      assert users[..0] == [] && clock[..0] == [] && users[0..] == users;
      LeftInitially(groups, table, users);
      for i := 0 to |users|
        invariant Current() == SendAll(initial, users[..i], clock[..i])
        invariant IsLeft(groups, table, users[i..])
      {
        var userid := users[i];
        SendAllNext(initial, users, clock, i);
        LeftAfterTurn(groups, table, users[i..]);
        assert users[i..][0] == userid && users[i..][1..] == users[i + 1..];
        if IntervalExpired(digests, userid, clock[i].check) {
          sent := sent + [Dispatch(userid, clock[i].record, groups[userid])];
          MarkAsSent(groups[userid]);
          RecordDigest(userid, clock[i].record);
        }
      }
      assert users[..|users|] == users && clock[..|clock|] == clock;
    }
  }

  lemma SendAllNext(s: State, users: seq<string>, clock: seq<Reading>, i: nat)
    requires i < |users| == |clock|
    ensures SendAll(s, users[..i + 1], clock[..i + 1]) == SendTo(SendAll(s, users[..i], clock[..i]), users[i], clock[i])
  {
    assert users[..i + 1][..i] == users[..i] && clock[..i + 1][..i] == clock[..i];
  }

  /** The users with unsent digest notifications, in some order. */
  ghost predicate AreRecipients(users: seq<string>, table: seq<Notification>) {
    NoDuplicates(users) && forall u :: u in users <==> Pending(table, u) != []
  }

  /** The groups of the users still to come are what these users have pending now. */
  ghost predicate IsLeft(groups: map<string, seq<Notification>>, table: seq<Notification>, users: seq<string>) {
    && UniqueIds(table) && NoDuplicates(users)
    && forall i | 0 <= i < |users| :: users[i] in groups && groups[users[i]] == Pending(table, users[i])
  }

  lemma LeftInitially(groups: map<string, seq<Notification>>, table: seq<Notification>, users: seq<string>)
    requires IsGrouping(groups, UnsentDigestNotifications(table), ByUser)
    requires UniqueIds(table) && AreRecipients(users, table)
    ensures IsLeft(groups, table, users)
  {
    forall i | 0 <= i < |users| ensures users[i] in groups && groups[users[i]] == Pending(table, users[i]) {
      assert Pending(table, users[i]) != [];
      OfKeyEmpty(UnsentDigestNotifications(table), users[i], ByUser);
    }
  }

  lemma LeftAfterTurn(groups: map<string, seq<Notification>>, table: seq<Notification>, users: seq<string>)
    requires users != [] && IsLeft(groups, table, users)
    ensures users[0] in groups && groups[users[0]] == Pending(table, users[0])
    ensures IsLeft(groups, table, users[1..])
    ensures IsLeft(groups, MarkSent(table, Ids(groups[users[0]])), users[1..])
  {
    MarkingLeavesOthers(table, users[0]);
  }

  ghost predicate UniqueIds(table: seq<Notification>) {
    forall i, j :: 0 <= i < j < |table| ==> table[i].id != table[j].id
  }

  lemma {:induction false} UnsentMembers(table: seq<Notification>)
    ensures forall n :: n in UnsentDigestNotifications(table) <==> n in table && Unsent(n)
  {
    if table != [] {
      var init := table[..|table| - 1];
      UnsentMembers(init);
      assert table == init + [table[|table| - 1]];
    }
  }

  lemma PendingMembers(table: seq<Notification>, userid: string, n: Notification)
    ensures n in Pending(table, userid) <==> n in table && Unsent(n) && n.userid == userid
  {
    UnsentMembers(table);
    OfKeyMembers(UnsentDigestNotifications(table), userid, ByUser);
  }

  /** Which rows of the table a user's turn changes. */
  lemma MarksExactlyPending(table: seq<Notification>, userid: string, i: nat)
    requires UniqueIds(table) && i < |table|
    ensures table[i].id in Ids(Pending(table, userid)) <==> Unsent(table[i]) && table[i].userid == userid
  {
    PendingMembers(table, userid, table[i]);
    if table[i].id in Ids(Pending(table, userid)) {
      var n :| n in Pending(table, userid) && n.id == table[i].id;
      PendingMembers(table, userid, n);
      var j :| 0 <= j < |table| && table[j] == n;
    }
  }

  lemma {:induction false} PendingAfterMarking(table: seq<Notification>, table': seq<Notification>,
                                              userid: string, other: string)
    requires |table| == |table'|
    requires forall i :: 0 <= i < |table| ==>
      table'[i] == if Unsent(table[i]) && table[i].userid == userid then table[i].(sentInDigest := true) else table[i]
    ensures Pending(table', other) == if other == userid then [] else Pending(table, other)
  {
    if table != [] {
      var n := |table| - 1;
      PendingAfterMarking(table[..n], table'[..n], userid, other);
      PendingStep(table, other);
      PendingStep(table', other);
    }
  }

  lemma PendingStep(table: seq<Notification>, userid: string)
    requires table != []
    ensures var last := table[|table| - 1];
      Pending(table, userid)
        == Pending(table[..|table| - 1], userid) + (if Unsent(last) && last.userid == userid then [last] else [])
  {
    var init, last := table[..|table| - 1], table[|table| - 1];
    assert UnsentDigestNotifications(init) + [] == UnsentDigestNotifications(init);
  }

  /** A user's turn takes care of all he has pending and of nothing else. */
  lemma MarkingLeavesOthers(table: seq<Notification>, userid: string)
    requires UniqueIds(table)
    ensures var table' := MarkSent(table, Ids(Pending(table, userid)));
      && UniqueIds(table')
      && forall other :: Pending(table', other) == if other == userid then [] else Pending(table, other)
  {
    var table' := MarkSent(table, Ids(Pending(table, userid)));
    forall i | 0 <= i < |table|
      ensures table'[i] == if Unsent(table[i]) && table[i].userid == userid then table[i].(sentInDigest := true)
        else table[i]
    {
      MarksExactlyPending(table, userid, i);
    }
    forall other ensures Pending(table', other) == if other == userid then [] else Pending(table, other) {
      PendingAfterMarking(table, table', userid, other);
    }
  }

  // ----- runs -----

  /** A notification is stored, or the digest job goes over the users with unsent notifications. */
  datatype Event = Notify(n: Notification) | SendDigests(users: seq<string>, clock: seq<Reading>)

  /** The clock does not run backwards between a user's check and the record of his mail. What it does
      from one user or job to the next does not matter. */
  predicate ForwardInTurns(clock: seq<Reading>) {
    forall i :: 0 <= i < |clock| ==> clock[i].check <= clock[i].record
  }

  ghost predicate Enabled(s: State, e: Event) {
    match e
    case Notify(n) => !n.sentInDigest && forall i :: 0 <= i < |s.table| ==> s.table[i].id != n.id
    case SendDigests(users, clock) =>
      |users| == |clock| && ForwardInTurns(clock) && AreRecipients(users, s.table)
  }

  ghost function Apply(s: State, e: Event): State
    requires Enabled(s, e)
  {
    match e
    case Notify(n) => s.(table := s.table + [n])
    case SendDigests(users, clock) => SendAll(s, users, clock)
  }

  /** The states of a run that starts with empty tables. */
  ghost predicate IsRun(states: seq<State>, events: seq<Event>) {
    && |states| == |events| + 1
    && states[0] == State([], map[], [])
    && forall i :: 0 <= i < |events| ==>
         && Enabled(states[i], events[i])
         && states[i + 1] == Apply(states[i], events[i])
  }

  ghost predicate InMail(d: Dispatch, id: int) {
    exists n :: n in d.notifications && n.id == id
  }

  ghost predicate IsSent(sent: seq<Dispatch>, id: int) {
    exists d :: 0 <= d < |sent| && InMail(sent[d], id)
  }

  /** A row of the table is marked exactly when it was in some mail. */
  ghost predicate MarkedIffSent(s: State) {
    forall i :: 0 <= i < |s.table| ==> (s.table[i].sentInDigest <==> IsSent(s.sent, s.table[i].id))
  }

  /** Only stored digest notifications were sent. */
  ghost predicate SentAreStored(s: State) {
    forall id :: IsSent(s.sent, id) ==> exists i :: 0 <= i < |s.table| && s.table[i].id == id && s.table[i].isDigest
  }

  ghost predicate AtMostOneMail(sent: seq<Dispatch>) {
    forall d, e, id :: 0 <= d < e < |sent| && InMail(sent[d], id) ==> !InMail(sent[e], id)
  }

  predicate Spaced(sent: seq<Dispatch>) {
    forall d, e | 0 <= d < e < |sent| && sent[d].userid == sent[e].userid :: sent[e].time - sent[d].time >= INTERVAL
  }

  /** A mail holds notifications of its own user only. */
  predicate ToOwner(sent: seq<Dispatch>) {
    forall d, i | 0 <= d < |sent| && 0 <= i < |sent[d].notifications| ::
      sent[d].notifications[i].userid == sent[d].userid
  }

  /** The recorded dispatch of a user is the time of the latest mail he got. */
  ghost predicate Recorded(s: State) {
    && (forall d :: 0 <= d < |s.sent| ==>
          s.sent[d].userid in s.digests && s.sent[d].time <= s.digests[s.sent[d].userid])
    && (forall u :: u in s.digests ==>
          exists d :: 0 <= d < |s.sent| && s.sent[d].userid == u && s.sent[d].time == s.digests[u])
  }

  ghost predicate Inv(s: State) {
    && UniqueIds(s.table) && MarkedIffSent(s) && SentAreStored(s)
    && AtMostOneMail(s.sent) && Spaced(s.sent) && ToOwner(s.sent) && Recorded(s)
  }

  // ----- one turn -----

  lemma SentAfter(sent: seq<Dispatch>, d: Dispatch, id: int)
    ensures IsSent(sent + [d], id) <==> IsSent(sent, id) || InMail(d, id)
  {
    var all := sent + [d];
    if IsSent(sent, id) {
      var k :| 0 <= k < |sent| && InMail(sent[k], id);
      assert InMail(all[k], id);
    }
    assert all[|sent|] == d;
    if k :| 0 <= k < |all| && InMail(all[k], id) {
      assert k < |sent| ==> InMail(sent[k], id);
    }
  }

  /** The identifiers in a user's mail are those of his unsent rows. */
  lemma MailHoldsPending(s: State, userid: string, time: int, i: nat)
    requires UniqueIds(s.table) && i < |s.table|
    ensures InMail(Dispatch(userid, time, Pending(s.table, userid)), s.table[i].id)
      <==> Unsent(s.table[i]) && s.table[i].userid == userid
  {
    MarksExactlyPending(s.table, userid, i);
  }

  lemma MailIsStored(s: State, userid: string, time: int, id: int)
    requires UniqueIds(s.table) && InMail(Dispatch(userid, time, Pending(s.table, userid)), id)
    ensures exists i :: 0 <= i < |s.table| && s.table[i].id == id && Unsent(s.table[i])
  {
    var n :| n in Pending(s.table, userid) && n.id == id;
    PendingMembers(s.table, userid, n);
  }

  lemma TurnKeepsMarks(s: State, userid: string, at: Reading)
    requires UniqueIds(s.table) && MarkedIffSent(s) && SentAreStored(s)
    ensures var s' := SendTo(s, userid, at); MarkedIffSent(s') && SentAreStored(s')
  {
    var s' := SendTo(s, userid, at);
    if IntervalExpired(s.digests, userid, at.check) {
      var d := Dispatch(userid, at.record, Pending(s.table, userid));
      forall i | 0 <= i < |s'.table| ensures s'.table[i].sentInDigest <==> IsSent(s'.sent, s'.table[i].id) {
        SentAfter(s.sent, d, s.table[i].id);
        MailHoldsPending(s, userid, at.record, i);
        MarksExactlyPending(s.table, userid, i);
      }
      forall id | IsSent(s'.sent, id)
        ensures exists i :: 0 <= i < |s'.table| && s'.table[i].id == id && s'.table[i].isDigest
      {
        SentAfter(s.sent, d, id);
        if InMail(d, id) { MailIsStored(s, userid, at.record, id); }
        var i :| 0 <= i < |s.table| && s.table[i].id == id && s.table[i].isDigest;
        assert s'.table[i].id == id && s'.table[i].isDigest;
      }
    }
  }

  lemma TurnSendsOnce(s: State, userid: string, at: Reading)
    requires UniqueIds(s.table) && MarkedIffSent(s) && AtMostOneMail(s.sent)
    ensures AtMostOneMail(SendTo(s, userid, at).sent)
  {
    var d := Dispatch(userid, at.record, Pending(s.table, userid));
    forall k, id | 0 <= k < |s.sent| && InMail(s.sent[k], id) ensures !InMail(d, id) {
      if InMail(d, id) {
        MailIsStored(s, userid, at.record, id);
        assert IsSent(s.sent, id);
      }
    }
  }

  lemma TurnRecords(s: State, userid: string, at: Reading)
    requires Recorded(s) && at.check <= at.record
    ensures Recorded(SendTo(s, userid, at))
  {
    var s' := SendTo(s, userid, at);
    if IntervalExpired(s.digests, userid, at.check) {
      forall u | u in s'.digests
        ensures exists d :: 0 <= d < |s'.sent| && s'.sent[d].userid == u && s'.sent[d].time == s'.digests[u]
      {
        if u == userid {
          assert s'.sent[|s.sent|].userid == u;
        } else {
          var d :| 0 <= d < |s.sent| && s.sent[d].userid == u && s.sent[d].time == s.digests[u];
          assert s'.sent[d] == s.sent[d];
        }
      }
    }
  }

  lemma TurnSpaces(s: State, userid: string, at: Reading)
    requires Spaced(s.sent) && Recorded(s) && at.check <= at.record
    ensures Spaced(SendTo(s, userid, at).sent)
  {
    var s' := SendTo(s, userid, at);
    if IntervalExpired(s.digests, userid, at.check) {
      ExpiredExactly(s, userid, at.check);
      forall d | 0 <= d < |s.sent| && s'.sent[d].userid == userid ensures at.record - s'.sent[d].time >= INTERVAL {
        assert s'.sent[d] == s.sent[d];
      }
    }
  }

  lemma TurnKeepsSpacing(s: State, userid: string, at: Reading)
    requires Spaced(s.sent) && Recorded(s) && ToOwner(s.sent)
    requires at.check <= at.record
    ensures var s' := SendTo(s, userid, at); Spaced(s'.sent) && Recorded(s') && ToOwner(s'.sent)
  {
    TurnRecords(s, userid, at);
    TurnSpaces(s, userid, at);
    forall i | 0 <= i < |Pending(s.table, userid)| ensures Pending(s.table, userid)[i].userid == userid {
      PendingMembers(s.table, userid, Pending(s.table, userid)[i]);
    }
  }

  lemma TurnKeepsInv(s: State, userid: string, at: Reading)
    requires Inv(s) && at.check <= at.record
    ensures Inv(SendTo(s, userid, at))
  {
    TurnKeepsMarks(s, userid, at);
    TurnSendsOnce(s, userid, at);
    TurnKeepsSpacing(s, userid, at);
    MarkingLeavesOthers(s.table, userid);
  }

  lemma {:induction false} SendAllKeepsInv(s: State, users: seq<string>, clock: seq<Reading>)
    requires Inv(s) && |users| == |clock| && ForwardInTurns(clock)
    ensures Inv(SendAll(s, users, clock))
  {
    if users != [] {
      var n := |users| - 1;
      SendAllKeepsInv(s, users[..n], clock[..n]);
      TurnKeepsInv(SendAll(s, users[..n], clock[..n]), users[n], clock[n]);
    }
  }

  lemma NotifyKeepsInv(s: State, n: Notification)
    requires Inv(s) && Enabled(s, Notify(n))
    ensures Inv(Apply(s, Notify(n)))
  {
    var s' := Apply(s, Notify(n));
    forall id | IsSent(s'.sent, id)
      ensures exists i :: 0 <= i < |s'.table| && s'.table[i].id == id && s'.table[i].isDigest
    {
      var i :| 0 <= i < |s.table| && s.table[i].id == id && s.table[i].isDigest;
      assert s'.table[i] == s.table[i];
    }
  }

  lemma StepKeepsInv(s: State, e: Event)
    requires Inv(s) && Enabled(s, e)
    ensures Inv(Apply(s, e))
  {
    match e
    case Notify(n) => NotifyKeepsInv(s, n);
    case SendDigests(users, clock) => SendAllKeepsInv(s, users, clock);
  }

  /** In every run no notification is in two mails, the mails of one user are 23 hours apart, and the
      flag of a notification tells exactly whether it was sent. */
  lemma {:induction false} RunIsSafe(states: seq<State>, events: seq<Event>)
    requires IsRun(states, events)
    ensures Inv(states[|events|])
  {
    if events != [] {
      var n := |events| - 1;
      RunIsSafe(states[..n + 1], events[..n]);
      StepKeepsInv(states[n], events[n]);
    }
  }

  // ----- one run of the job -----

  /** The mails of one job, computed from the tables as they were when it started. */
  function Mails(s: State, users: seq<string>, clock: seq<Reading>): seq<Dispatch>
    requires |users| == |clock|
  {
    if users == [] then []
    else
      var n := |users| - 1;
      Mails(s, users[..n], clock[..n])
        + (if IntervalExpired(s.digests, users[n], clock[n].check)
           then [Dispatch(users[n], clock[n].record, Pending(s.table, users[n]))]
           else [])
  }

  /** What state `s'` holds for a user who was not served in state `s`. */
  ghost predicate Untouched(s: State, s': State, userid: string) {
    && Pending(s'.table, userid) == Pending(s.table, userid)
    && (userid in s'.digests <==> userid in s.digests)
    && (userid in s.digests ==> s'.digests[userid] == s.digests[userid])
  }

  ghost predicate Served(s': State, userid: string, time: int) {
    Pending(s'.table, userid) == [] && userid in s'.digests && s'.digests[userid] == time
  }

  lemma TurnServes(s: State, userid: string, at: Reading)
    requires UniqueIds(s.table)
    ensures var s' := SendTo(s, userid, at);
      && UniqueIds(s'.table)
      && (forall other | other != userid :: Untouched(s, s', other))
      && (if IntervalExpired(s.digests, userid, at.check) then Served(s', userid, at.record) else s' == s)
  {
    MarkingLeavesOthers(s.table, userid);
  }

  lemma {:induction false} IdsStayUnique(s: State, users: seq<string>, clock: seq<Reading>)
    requires UniqueIds(s.table) && |users| == |clock|
    ensures UniqueIds(SendAll(s, users, clock).table)
  {
    if users != [] {
      var n := |users| - 1;
      IdsStayUnique(s, users[..n], clock[..n]);
      TurnServes(SendAll(s, users[..n], clock[..n]), users[n], clock[n]);
    }
  }

  lemma {:induction false} JobLeaves(s: State, users: seq<string>, clock: seq<Reading>, userid: string)
    requires UniqueIds(s.table) && |users| == |clock| && userid !in users
    ensures Untouched(s, SendAll(s, users, clock), userid)
  {
    if users != [] {
      var n := |users| - 1;
      var before := SendAll(s, users[..n], clock[..n]);
      JobLeaves(s, users[..n], clock[..n], userid);
      IdsStayUnique(s, users[..n], clock[..n]);
      TurnServes(before, users[n], clock[n]);
      assert Untouched(before, SendAll(s, users, clock), userid);
    }
  }

  /** The job serves its users independently of each other: exactly those whose interval has expired
      have nothing left and a new recorded dispatch; the others lose nothing and keep theirs. */
  lemma {:induction false} JobServes(s: State, users: seq<string>, clock: seq<Reading>, k: nat)
    requires UniqueIds(s.table) && |users| == |clock| && NoDuplicates(users) && k < |users|
    ensures if IntervalExpired(s.digests, users[k], clock[k].check)
      then Served(SendAll(s, users, clock), users[k], clock[k].record)
      else Untouched(s, SendAll(s, users, clock), users[k])
  {
    var n := |users| - 1;
    var before := SendAll(s, users[..n], clock[..n]);
    IdsStayUnique(s, users[..n], clock[..n]);
    TurnServes(before, users[n], clock[n]);
    if k == n {
      JobLeaves(s, users[..n], clock[..n], users[n]);
    } else {
      JobServes(s, users[..n], clock[..n], k);
      assert Untouched(before, SendAll(s, users, clock), users[k]);
    }
  }

  /** The mails are those the tables called for when the job started, in the order of the users. */
  lemma {:induction false} JobSends(s: State, users: seq<string>, clock: seq<Reading>)
    requires UniqueIds(s.table) && |users| == |clock| && NoDuplicates(users)
    ensures SendAll(s, users, clock).sent == s.sent + Mails(s, users, clock)
  {
    if users != [] {
      var n := |users| - 1;
      JobSends(s, users[..n], clock[..n]);
      JobLeaves(s, users[..n], clock[..n], users[n]);
    }
  }

  /** The mails of a job are one for each user whose interval has expired. */
  lemma {:induction false} MailsAre(s: State, users: seq<string>, clock: seq<Reading>)
    requires |users| == |clock|
    ensures forall d :: d in Mails(s, users, clock) <==> exists k ::
      && 0 <= k < |users| && IntervalExpired(s.digests, users[k], clock[k].check)
      && d == Dispatch(users[k], clock[k].record, Pending(s.table, users[k]))
  {
    if users != [] {
      var n := |users| - 1;
      MailsAre(s, users[..n], clock[..n]);
      assert forall k | 0 <= k < n :: users[k] == users[..n][k] && clock[k] == clock[..n][k];
    }
  }

  /** On the mails alone: a user's interval has expired exactly when all his mails are 23 hours old. */
  lemma ExpiredExactly(s: State, userid: string, now: int)
    requires Recorded(s)
    ensures IntervalExpired(s.digests, userid, now)
       <==> forall d | 0 <= d < |s.sent| && s.sent[d].userid == userid :: s.sent[d].time <= now - 23 * 3600
  {
  }

  /** From position `from` on, the user got a mail. */
  ghost predicate GotMail(sent: seq<Dispatch>, from: nat, userid: string) {
    exists d :: from <= d < |sent| && sent[d].userid == userid
  }

  predicate AllMailsBefore(sent: seq<Dispatch>, userid: string, time: int) {
    forall d | 0 <= d < |sent| && sent[d].userid == userid :: sent[d].time <= time
  }

  lemma GotMailBehind(sent: seq<Dispatch>, mails: seq<Dispatch>, userid: string)
    ensures GotMail(sent + mails, |sent|, userid) <==> exists mail :: mail in mails && mail.userid == userid
  {
    var all := sent + mails;
    if d :| |sent| <= d < |all| && all[d].userid == userid { assert mails[d - |sent|] == all[d]; }
    if mail :| mail in mails && mail.userid == userid {
      var m :| 0 <= m < |mails| && mails[m] == mail;
      assert all[|sent| + m] == mail;
    }
  }

  /** The job sends a user with something pending a mail exactly when every mail he got before is at
      least 23 hours old at his turn. */
  lemma JobSendsToExactly(s: State, users: seq<string>, clock: seq<Reading>, k: nat)
    requires Inv(s) && |users| == |clock| && AreRecipients(users, s.table) && k < |users|
    ensures s.sent <= SendAll(s, users, clock).sent
    ensures GotMail(SendAll(s, users, clock).sent, |s.sent|, users[k])
       <==> AllMailsBefore(s.sent, users[k], clock[k].check - 23 * 3600)
  {
    JobSends(s, users, clock);
    GotMailBehind(s.sent, Mails(s, users, clock), users[k]);
    MailsAre(s, users, clock);
    ExpiredExactly(s, users[k], clock[k].check);
    if IntervalExpired(s.digests, users[k], clock[k].check) {
      assert Dispatch(users[k], clock[k].record, Pending(s.table, users[k])) in Mails(s, users, clock);
    }
  }

  /** So it is in every run. */
  lemma RunSendsWhenExpired(states: seq<State>, events: seq<Event>, n: nat, k: nat)
    requires IsRun(states, events) && n < |events| && events[n].SendDigests? && k < |events[n].users|
    ensures k < |events[n].clock| && states[n].sent <= states[n + 1].sent
    ensures GotMail(states[n + 1].sent, |states[n].sent|, events[n].users[k])
       <==> AllMailsBefore(states[n].sent, events[n].users[k], events[n].clock[k].check - 23 * 3600)
  {
    RunIsSafe(states[..n + 1], events[..n]);
    assert Enabled(states[n], events[n]);
    JobSendsToExactly(states[n], events[n].users, events[n].clock, k);
  }

  /** Two mails to one user are at least the tolerated interval apart. */
  lemma RunSpacing(states: seq<State>, events: seq<Event>, d: nat, e: nat)
    requires IsRun(states, events) && d < e < |states[|events|].sent|
    requires states[|events|].sent[d].userid == states[|events|].sent[e].userid
    ensures states[|events|].sent[e].time - states[|events|].sent[d].time >= 23 * 3600
  {
    RunIsSafe(states, events);
  }

  /** In a run, a notification is waiting for its user exactly when it is meant for digests and no mail
      has held it; and mails hold no others. */
  lemma RunLosesNothing(states: seq<State>, events: seq<Event>, i: nat)
    requires IsRun(states, events) && i < |states[|events|].table|
    ensures var s := states[|events|]; var n := s.table[i];
      && (n in Pending(s.table, n.userid) <==> n.isDigest && !IsSent(s.sent, n.id))
      && (IsSent(s.sent, n.id) ==> n.isDigest)
  {
    RunIsSafe(states, events);
    PendingMembers(states[|events|].table, states[|events|].table[i].userid, states[|events|].table[i]);
  }

  // ----- the mail queue of a thread -----

  /** What can happen to the job in one thread: it commits; it is aborted after serving `users`, which
      rolls back the tables but not the queue; or the process is started again. */
  datatype Transaction =
    | Committed(users: seq<string>, clock: seq<Reading>)
    | Aborted(users: seq<string>, clock: seq<Reading>)
    | Restarted

  /** Mails wait in a queue of the thread, and whatever is in it goes out with the next commit. */
  datatype Thread = Thread(s: State, queue: seq<Dispatch>, delivered: multiset<Dispatch>)

  predicate Fits(x: Transaction) { x.Restarted? || |x.users| == |x.clock| }

  ghost predicate AllFit(xs: seq<Transaction>) {
    forall i | 0 <= i < |xs| :: Fits(xs[i]) && (!xs[i].Restarted? ==> NoDuplicates(xs[i].users))
  }

  function Transact(t: Thread, x: Transaction): Thread
    requires Fits(x)
  {
    match x
    case Committed(users, clock) =>
      Thread(SendAll(t.s, users, clock), [], t.delivered + multiset(t.queue) + multiset(Mails(t.s, users, clock)))
    case Aborted(users, clock) => t.(queue := t.queue + Mails(t.s, users, clock))
    case Restarted => t.(queue := [])
  }

  ghost function Transacted(s: State, xs: seq<Transaction>): Thread
    requires AllFit(xs)
  {
    if xs == [] then Thread(s, [], multiset(s.sent))
    else Transact(Transacted(s, xs[..|xs| - 1]), xs[|xs| - 1])
  }

  /** No commit finds mails of an aborted transaction in the queue. */
  ghost predicate NothingLeftOver(s: State, xs: seq<Transaction>)
    requires AllFit(xs)
  {
    xs != [] ==>
      var before := xs[..|xs| - 1];
      NothingLeftOver(s, before) && (xs[|xs| - 1].Committed? ==> Transacted(s, before).queue == [])
  }

  lemma TransactDelivers(t: Thread, x: Transaction)
    requires Fits(x) && UniqueIds(t.s.table) && (!x.Restarted? ==> NoDuplicates(x.users))
    requires multiset(t.s.sent) <= t.delivered
    ensures var t' := Transact(t, x);
      UniqueIds(t'.s.table) && multiset(t'.s.sent) <= t'.delivered
    ensures Transact(t, x).delivered == multiset(Transact(t, x).s.sent)
       <==> t.delivered == multiset(t.s.sent) && (x.Committed? ==> t.queue == [])
  {
    if x.Committed? {
      JobSends(t.s, x.users, x.clock);
      IdsStayUnique(t.s, x.users, x.clock);
      var sent, left, added := multiset(t.s.sent), multiset(t.queue), multiset(Mails(t.s, x.users, x.clock));
      assert multiset(Transact(t, x).s.sent) == sent + added;
      LeftOverShows(t.delivered, sent, left, added);
      assert t.queue != [] ==> t.queue[0] in left;
    }
  }

  lemma LeftOverShows<T>(delivered: multiset<T>, sent: multiset<T>, left: multiset<T>, added: multiset<T>)
    requires sent <= delivered
    ensures sent + added <= delivered + left + added
    ensures delivered + left + added == sent + added <==> delivered == sent && left == multiset{}
  {
    if delivered + left + added == sent + added {
      forall d ensures delivered[d] == sent[d] && left[d] == 0 {
        assert (delivered + left + added)[d] == (sent + added)[d];
      }
    }
  }

  /** The mails that go out are exactly the recorded ones if and only if no commit finds left-over mails. */
  lemma {:induction false} DeliversRecordedExactly(s: State, xs: seq<Transaction>)
    requires UniqueIds(s.table) && AllFit(xs)
    ensures var t := Transacted(s, xs);
      && UniqueIds(t.s.table) && multiset(t.s.sent) <= t.delivered
      && (t.delivered == multiset(t.s.sent) <==> NothingLeftOver(s, xs))
  {
    if xs != [] {
      DeliversRecordedExactly(s, xs[..|xs| - 1]);
      TransactDelivers(Transacted(s, xs[..|xs| - 1]), xs[|xs| - 1]);
    }
  }

  /** Transaction `i` was aborted after it had put mails into the queue. */
  ghost predicate LeavesMail(s: State, xs: seq<Transaction>, i: nat)
    requires AllFit(xs) && i < |xs|
  {
    xs[i].Aborted? && Mails(Transacted(s, xs[..i]).s, xs[i].users, xs[i].clock) != []
  }

  predicate HasBetween(xs: seq<Transaction>, i: nat, j: nat, alsoCommits: bool)
    requires j <= |xs|
  {
    exists r :: i < r < j && (xs[r].Restarted? || (alsoCommits && xs[r].Committed?))
  }

  /** Between an abort that leaves mails and a later commit the process is always started again. */
  ghost predicate RestartsInTime(s: State, xs: seq<Transaction>)
    requires AllFit(xs)
  {
    forall i, j :: 0 <= i < j < |xs| && LeavesMail(s, xs, i) && xs[j].Committed? ==> HasBetween(xs, i, j, false)
  }

  ghost predicate QueueEmptied(s: State, xs: seq<Transaction>)
    requires AllFit(xs)
  {
    forall i :: 0 <= i < |xs| && LeavesMail(s, xs, i) ==> HasBetween(xs, i, |xs|, true)
  }

  lemma LeavesMailInFront(s: State, xs: seq<Transaction>, i: nat)
    requires AllFit(xs) && i < |xs| - 1
    ensures LeavesMail(s, xs[..|xs| - 1], i) == LeavesMail(s, xs, i)
  {
    assert xs[..|xs| - 1][..i] == xs[..i];
  }

  lemma EmptiedStep(s: State, xs: seq<Transaction>)
    requires AllFit(xs) && xs != []
    ensures QueueEmptied(s, xs)
       <==> !xs[|xs| - 1].Aborted? || (QueueEmptied(s, xs[..|xs| - 1]) && !LeavesMail(s, xs, |xs| - 1))
  {
    var n := |xs| - 1;
    forall i | 0 <= i < n
      ensures LeavesMail(s, xs[..n], i) == LeavesMail(s, xs, i)
      ensures HasBetween(xs, i, |xs|, true) <==> HasBetween(xs[..n], i, n, true) || !xs[n].Aborted?
    {
      LeavesMailInFront(s, xs, i);
    }
    assert !HasBetween(xs, n, |xs|, true);
  }

  /** The queue is empty exactly when a commit or a restart followed every abort that left mails. */
  lemma {:induction false} QueueIs(s: State, xs: seq<Transaction>)
    requires AllFit(xs)
    ensures Transacted(s, xs).queue == [] <==> QueueEmptied(s, xs)
  {
    if xs != [] {
      QueueIs(s, xs[..|xs| - 1]);
      EmptiedStep(s, xs);
    }
  }

  /** No commit finds left-over mails exactly when the process is started again in time. */
  lemma {:induction false} NothingLeftOverExactly(s: State, xs: seq<Transaction>)
    requires AllFit(xs)
    ensures NothingLeftOver(s, xs) <==> RestartsInTime(s, xs)
  {
    if xs != [] {
      var n := |xs| - 1;
      NothingLeftOverExactly(s, xs[..n]);
      QueueIs(s, xs[..n]);
      RestartsInFront(s, xs);
      if RestartsInTime(s, xs[..n]) && xs[n].Committed? { EmptiedByRestart(s, xs); }
    }
  }

  lemma RestartsInFront(s: State, xs: seq<Transaction>)
    requires AllFit(xs) && xs != []
    ensures var n := |xs| - 1;
      RestartsInTime(s, xs) <==>
        RestartsInTime(s, xs[..n])
        && (xs[n].Committed? ==> forall i :: 0 <= i < n && LeavesMail(s, xs, i) ==> HasBetween(xs, i, n, false))
  {
    var n := |xs| - 1;
    forall i, j | 0 <= i < j < n
      ensures LeavesMail(s, xs[..n], i) == LeavesMail(s, xs, i)
      ensures HasBetween(xs[..n], i, j, false) == HasBetween(xs, i, j, false)
    {
      LeavesMailInFront(s, xs, i);
    }
  }

  /** As long as restarts came in time, whatever emptied the queue began with a restart. */
  lemma EmptiedByRestart(s: State, xs: seq<Transaction>)
    requires AllFit(xs) && xs != [] && RestartsInTime(s, xs[..|xs| - 1])
    ensures var n := |xs| - 1;
      QueueEmptied(s, xs[..n]) <==> forall i :: 0 <= i < n && LeavesMail(s, xs, i) ==> HasBetween(xs, i, n, false)
  {
    var n := |xs| - 1;
    var init := xs[..n];
    forall i | 0 <= i < n && LeavesMail(s, xs, i)
      ensures HasBetween(init, i, n, true) <==> HasBetween(xs, i, n, false)
    {
      LeavesMailInFront(s, xs, i);
      if r :| i < r < n && (init[r].Restarted? || init[r].Committed?) {
        if init[r].Committed? {
          assert HasBetween(init, i, r, false);
          var q :| i < q < r && init[q].Restarted?;
          assert xs[q].Restarted?;
        } else {
          assert xs[r].Restarted?;
        }
      }
      if r :| i < r < n && xs[r].Restarted? { assert init[r].Restarted?; }
    }
    forall i | 0 <= i < n ensures LeavesMail(s, init, i) == LeavesMail(s, xs, i) { LeavesMailInFront(s, xs, i); }
  }

  /** On the transactions alone: the mails that go out are the recorded ones exactly when the process is
      started again between every abort that left mails and the next commit. */
  lemma DeliversRecordedIffRestarted(s: State, xs: seq<Transaction>)
    requires UniqueIds(s.table) && AllFit(xs)
    ensures Transacted(s, xs).delivered == multiset(Transacted(s, xs).s.sent) <==> RestartsInTime(s, xs)
  {
    DeliversRecordedExactly(s, xs);
    NothingLeftOverExactly(s, xs);
  }

  /** Trying again in the same thread sends the mail twice. */
  lemma RetryInThreadSendsTwice(s: State, userid: string, at: Reading)
    requires IntervalExpired(s.digests, userid, at.check)
    ensures var xs := [Aborted([userid], [at]), Committed([userid], [at])];
      && AllFit(xs)
      && Transacted(s, xs).delivered
         == multiset(s.sent) + multiset{Dispatch(userid, at.record, Pending(s.table, userid)),
                                        Dispatch(userid, at.record, Pending(s.table, userid))}
  {
    var xs := [Aborted([userid], [at]), Committed([userid], [at])];
    var mail := Dispatch(userid, at.record, Pending(s.table, userid));
    assert [userid][..0] == [] && [at][..0] == [];
    assert Mails(s, [userid], [at]) == [mail];
    assert xs[..1][..0] == [] && xs[..1] == [xs[0]];
    assert Transacted(s, xs[..1]) == Thread(s, [mail], multiset(s.sent));
  }
}
