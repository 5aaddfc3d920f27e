/** The list of role assignments of one object, as values, and the laws its operations obey. */
module RoleStorage {
  import opened Collections

  const VIA_TASK := 1
  const VIA_TASK_AGENCY := 2
  const VIA_SHARING := 3
  const VIA_PROTECT_DOSSIER := 4
  const VIA_INVITATION := 5
  const VIA_COMMITTEE_GROUP := 6

  const KEPT_WHEN_COPYING: set<int> := {VIA_SHARING, VIA_PROTECT_DOSSIER, VIA_INVITATION}
  const REGISTERED_CAUSES: seq<int> := [VIA_TASK, VIA_TASK_AGENCY, VIA_SHARING, VIA_PROTECT_DOSSIER,
                                        VIA_INVITATION, VIA_COMMITTEE_GROUP]

  /** `reference` is the OGUID of the object on whose behalf the roles are given. */
  datatype Item = Item(principal: string, roles: seq<string>, cause: int, reference: Option<string>)

  /** What Python takes for false: no reference, or an empty one. */
  predicate Lacking(reference: Option<string>) {
    reference.None? || reference.value == ""
  }

  predicate SameGroup(item: Item, principal: string, cause: int) {
    item.principal == principal && item.cause == cause
  }

  predicate Answers(item: Item, principal: string, cause: int, reference: Option<string>) {
    SameGroup(item, principal, cause) && (Lacking(reference) || item.reference == reference)
  }

  /** The position `get` finds: without a reference, the first item of the group will do. */
  function Find(s: seq<Item>, principal: string, cause: int, reference: Option<string>): (r: Option<nat>)
    ensures r.Some? ==> r.value < |s| && Answers(s[r.value], principal, cause, reference)
                        && forall k :: 0 <= k < r.value ==> !Answers(s[k], principal, cause, reference)
    ensures r.None? ==> forall k :: 0 <= k < |s| ==> !Answers(s[k], principal, cause, reference)
  {
    if s == [] then None
    else if Answers(s[0], principal, cause, reference) then Some(0)
    else
      match Find(s[1..], principal, cause, reference)
      case Some(i) => Some(i + 1)
      case None => None
  }

  function AddOrUpdate(s: seq<Item>, principal: string, roles: seq<string>, cause: int,
                       reference: Option<string>): seq<Item> {
    var item := Item(principal, roles, cause, reference);
    match Find(s, principal, cause, reference)
    case Some(i) => s[i := item]
    case None => s + [item]
  }

  datatype Criterion = OfCause(cause: int) | OfReference(reference: Option<string>)

  predicate Meets(item: Item, criterion: Criterion) {
    match criterion
    case OfCause(cause) => item.cause == cause
    case OfReference(reference) => item.reference == reference
  }

  function Select(s: seq<Item>, criterion: Criterion): seq<Item> {
    if s == [] then []
    else (if Meets(s[0], criterion) then [s[0]] else []) + Select(s[1..], criterion)
  }

  /** The items that do not meet the criterion, in order. */
  function Reject(s: seq<Item>, criterion: Criterion): (r: seq<Item>)
    ensures forall item :: item in r <==> item in s && !Meets(item, criterion)
  {
    if s == [] then []
    else (if Meets(s[0], criterion) then [] else [s[0]]) + Reject(s[1..], criterion)
  }

  /** Calls `remove` for each of `items`, every time dropping the first equal item. */
  function RemoveEach(s: seq<Item>, items: seq<Item>): seq<Item>
    requires multiset(items) <= multiset(s)
    decreases |items|
  {
    if items == [] then s
    else
      assert items == [items[0]] + items[1..];
      assert items[0] in multiset(s);
      RemoveFirstMultiset(s, items[0]);
      RemoveEach(RemoveFirst(s, items[0]), items[1..])
  }

  lemma {:induction false} SelectedFrom(s: seq<Item>, criterion: Criterion)
    ensures multiset(Select(s, criterion)) <= multiset(s)
    ensures forall item :: item in Select(s, criterion) ==> item in s && Meets(item, criterion)
  {
    if s != [] {
      assert s == [s[0]] + s[1..];
      SelectedFrom(s[1..], criterion);
    }
  }

  function Clear(s: seq<Item>, criterion: Criterion): seq<Item> {
    SelectedFrom(s, criterion);
    RemoveEach(s, Select(s, criterion))
  }

  function ClearCauseAndPrincipal(s: seq<Item>, cause: int, principal: string): seq<Item> {
    match Find(s, principal, cause, None)
    case Some(i) => RemoveFirst(s, s[i])
    case None => s
  }

  function ClearFound(s: seq<Item>, principal: string, cause: int, reference: Option<string>): seq<Item> {
    match Find(s, principal, cause, reference)
    case Some(i) => RemoveFirst(s, s[i])
    case None => s
  }

  function AddAll(s: seq<Item>, added: seq<Item>): seq<Item>
    decreases |added|
  {
    if added == [] then s
    else AddAll(AddOrUpdate(s, added[0].principal, added[0].roles, added[0].cause, added[0].reference), added[1..])
  }

  // ----- removal by equality -----

  lemma {:induction false} RemoveEachSkips(head: Item, tail: seq<Item>, items: seq<Item>)
    requires head !in items && multiset(items) <= multiset(tail)
    ensures multiset(items) <= multiset([head] + tail)
    ensures RemoveEach([head] + tail, items) == [head] + RemoveEach(tail, items)
    decreases |items|
  {
    if items != [] {
      assert items == [items[0]] + items[1..];
      assert items[0] in multiset(tail);
      assert items[0] in [head] + tail && items[0] in tail && ([head] + tail)[1..] == tail;
      RemoveFirstMultiset(tail, items[0]);
      RemoveEachSkips(head, RemoveFirst(tail, items[0]), items[1..]);
    }
  }

  lemma ClearHead(head: Item, tail: seq<Item>, criterion: Criterion)
    ensures Clear([head] + tail, criterion)
         == if Meets(head, criterion) then Clear(tail, criterion) else [head] + Clear(tail, criterion)
  {
    var s, rest := [head] + tail, Select(tail, criterion);
    assert s[1..] == tail;
    SelectedFrom(tail, criterion);
    if Meets(head, criterion) {
      assert Select(s, criterion) == [head] + rest;
    } else {
      assert Select(s, criterion) == rest;
      RemoveEachSkips(head, tail, rest);
    }
  }

  /** Clearing by a criterion leaves exactly the other items, in order, duplicates or not. */
  lemma {:induction false} ClearLeavesOthers(s: seq<Item>, criterion: Criterion)
    ensures Clear(s, criterion) == Reject(s, criterion)
  {
    if s != [] {
      ClearLeavesOthers(s[1..], criterion);
      ClearHead(s[0], s[1..], criterion);
      assert s == [s[0]] + s[1..];
    }
  }

  /** Removing the found item by equality removes the item at the found position. */
  lemma RemovesFoundItem(s: seq<Item>, principal: string, cause: int, reference: Option<string>)
    ensures match Find(s, principal, cause, reference)
      case Some(i) => ClearFound(s, principal, cause, reference) == s[..i] + s[i + 1..]
      case None => ClearFound(s, principal, cause, reference) == s
  {
    match Find(s, principal, cause, reference)
    case Some(i) =>
      var before := s[..i];
      assert forall k :: 0 <= k < |before| ==> !Answers(before[k], principal, cause, reference);
      RemoveFirstAt(s, i);
    case None =>
  }

  // ----- the ordering invariant -----

  /** Within a group every later item has a reference of its own; only the first may lack one. */
  ghost predicate Ordered(s: seq<Item>) {
    forall i, j :: 0 <= i < j < |s| && SameGroup(s[j], s[i].principal, s[i].cause) ==>
      !Lacking(s[j].reference) && s[i].reference != s[j].reference
  }

  ghost predicate UniqueKeys(s: seq<Item>) {
    forall i, j :: 0 <= i < j < |s| && SameGroup(s[j], s[i].principal, s[i].cause) ==>
      s[i].reference != s[j].reference
  }

  lemma {:induction false} RejectKeepsOrdered(s: seq<Item>, criterion: Criterion)
    requires Ordered(s)
    ensures Ordered(Reject(s, criterion))
  {
    if s != [] {
      RejectKeepsOrdered(s[1..], criterion);
      var tail := Reject(s[1..], criterion);
      forall j | 0 <= j < |tail| && SameGroup(tail[j], s[0].principal, s[0].cause)
        ensures !Lacking(tail[j].reference) && s[0].reference != tail[j].reference
      {
        assert tail[j] in s[1..];
        var k :| 0 <= k < |s[1..]| && s[1..][k] == tail[j];
        assert s[k + 1] == tail[j];
      }
    }
  }

  lemma {:induction false} AddAllKeepsOrdered(s: seq<Item>, added: seq<Item>)
    requires Ordered(s)
    ensures Ordered(AddAll(s, added))
    decreases |added|
  {
    if added != [] {
      var item := added[0];
      AddAllKeepsOrdered(AddOrUpdate(s, item.principal, item.roles, item.cause, item.reference), added[1..]);
    }
  }

  /** An operation of the storage; `Reset` is the manager's clear-then-add of one cause. */
  datatype Operation =
    | Add(item: Item)
    | ClearBy(criterion: Criterion)
    | ClearOne(principal: string, cause: int, reference: Option<string>)
    | ClearGroupHead(cause: int, principal: string)
    | Reset(cause: int, assignments: seq<Item>)
    | ClearAll

  function Apply(s: seq<Item>, op: Operation): seq<Item> {
    match op
    case Add(item) => AddOrUpdate(s, item.principal, item.roles, item.cause, item.reference)
    case ClearBy(criterion) => Clear(s, criterion)
    case ClearOne(principal, cause, reference) => ClearFound(s, principal, cause, reference)
    case ClearGroupHead(cause, principal) => ClearCauseAndPrincipal(s, cause, principal)
    case Reset(cause, assignments) => AddAll(Clear(s, OfCause(cause)), assignments)
    case ClearAll => []
  }

  function Run(ops: seq<Operation>): seq<Item> {
    if ops == [] then [] else Apply(Run(ops[..|ops| - 1]), ops[|ops| - 1])
  }

  lemma ClearFoundKeepsOrdered(s: seq<Item>, principal: string, cause: int, reference: Option<string>)
    requires Ordered(s)
    ensures Ordered(ClearFound(s, principal, cause, reference))
  {
    RemovesFoundItem(s, principal, cause, reference);
  }

  lemma ApplyKeepsOrdered(s: seq<Item>, op: Operation)
    requires Ordered(s)
    ensures Ordered(Apply(s, op))
  {
    match op
    case Add(item) =>
    case ClearBy(criterion) =>
      ClearLeavesOthers(s, criterion);
      RejectKeepsOrdered(s, criterion);
    case ClearOne(principal, cause, reference) => ClearFoundKeepsOrdered(s, principal, cause, reference);
    case ClearGroupHead(cause, principal) => ClearFoundKeepsOrdered(s, principal, cause, None);
    case Reset(cause, assignments) =>
      ClearLeavesOthers(s, OfCause(cause));
      RejectKeepsOrdered(s, OfCause(cause));
      AddAllKeepsOrdered(Reject(s, OfCause(cause)), assignments);
    case ClearAll =>
  }

  /** After every run of operations the ordering invariant holds, so (principal, cause, reference)
      identifies an item. */
  lemma {:induction false} RunKeepsKeysUnique(ops: seq<Operation>)
    ensures Ordered(Run(ops)) && UniqueKeys(Run(ops))
  {
    if ops != [] {
      RunKeepsKeysUnique(ops[..|ops| - 1]);
      ApplyKeepsOrdered(Run(ops[..|ops| - 1]), ops[|ops| - 1]);
    }
  }

  // ----- what the operations mean -----

  /** The roles stored under exactly this key. */
  ghost predicate Stores(s: seq<Item>, principal: string, cause: int, reference: Option<string>, roles: seq<string>) {
    Item(principal, roles, cause, reference) in s
  }

  /** After adding, the key holds exactly the given roles. */
  lemma AddStoresRoles(s: seq<Item>, principal: string, roles: seq<string>, cause: int, reference: Option<string>)
    requires Ordered(s)
    ensures var s' := AddOrUpdate(s, principal, roles, cause, reference);
      forall other :: Stores(s', principal, cause, reference, other) <==> other == roles
  {
    var s' := AddOrUpdate(s, principal, roles, cause, reference);
    var i := match Find(s, principal, cause, reference) case Some(k) => k case None => |s|;
    assert s'[i] == Item(principal, roles, cause, reference);
    forall other | Stores(s', principal, cause, reference, other) ensures other == roles {
      var k :| 0 <= k < |s'| && s'[k] == Item(principal, other, cause, reference);
    }
  }

  /** Adding disturbs no other item, with one exception: without a reference it overwrites the first
      item of its group, whatever that item's reference is. */
  lemma AddLeavesOthersExactly(s: seq<Item>, principal: string, roles: seq<string>, cause: int,
                              reference: Option<string>)
    requires Ordered(s)
    ensures var s' := AddOrUpdate(s, principal, roles, cause, reference);
      (forall item :: item in s && (!SameGroup(item, principal, cause) || item.reference != reference) ==> item in s')
      <==> (match Find(s, principal, cause, reference) case Some(i) => s[i].reference == reference case None => true)
  {
    var s' := AddOrUpdate(s, principal, roles, cause, reference);
    match Find(s, principal, cause, reference)
    case None =>
    case Some(i) =>
      if s[i].reference == reference {
        forall item | item in s && (!SameGroup(item, principal, cause) || item.reference != reference)
          ensures item in s'
        {
          var k :| 0 <= k < |s| && s[k] == item;
          assert s'[k] == item;
        }
      } else {
        assert s[i] in s && SameGroup(s[i], principal, cause);
        forall k | 0 <= k < |s'| ensures s'[k] != s[i] {
          assert k != i ==> s'[k] == s[k];
        }
      }
  }

  /** Adding without a reference can drop an assignment made on behalf of another object. */
  lemma AddWithoutReferenceOverwrites()
    ensures var s := [Item("peter", ["Reader"], VIA_INVITATION, Some("fd:1"))];
      AddOrUpdate(s, "peter", ["Editor"], VIA_INVITATION, None)
        == [Item("peter", ["Editor"], VIA_INVITATION, None)]
  {
  }

  /** Clearing one assignment removes its key and leaves every other item. */
  lemma ClearOneExactly(s: seq<Item>, principal: string, cause: int, reference: Option<string>, item: Item)
    requires Ordered(s) && !Lacking(reference)
    ensures item in ClearFound(s, principal, cause, reference)
       <==> item in s && !(SameGroup(item, principal, cause) && item.reference == reference)
  {
    RemovesFoundItem(s, principal, cause, reference);
    match Find(s, principal, cause, reference)
    case None =>
    case Some(i) =>
  }

  function GroupSize(s: seq<Item>, cause: int, principal: string): nat {
    if s == [] then 0 else (if SameGroup(s[0], principal, cause) then 1 else 0) + GroupSize(s[1..], cause, principal)
  }

  lemma {:induction false} GroupSizeSplits(a: seq<Item>, b: seq<Item>, cause: int, principal: string)
    ensures GroupSize(a + b, cause, principal) == GroupSize(a, cause, principal) + GroupSize(b, cause, principal)
  {
    if a == [] {
      assert a + b == b;
    } else {
      assert (a + b)[1..] == a[1..] + b;
      GroupSizeSplits(a[1..], b, cause, principal);
    }
  }

  lemma GroupSizeAfterRemoval(s: seq<Item>, i: nat, cause: int, principal: string)
    requires i < |s| && SameGroup(s[i], principal, cause)
    ensures GroupSize(s[..i] + s[i + 1..], cause, principal) == GroupSize(s, cause, principal) - 1
  {
    var back := s[i..];
    assert back[1..] == s[i + 1..];
    assert s == s[..i] + back;
    GroupSizeSplits(s[..i], back, cause, principal);
    GroupSizeSplits(s[..i], s[i + 1..], cause, principal);
  }

  /** Although it promises to remove all of them, clearing by cause and principal removes one item; it
      empties the group exactly when there was at most one. */
  lemma ClearCauseAndPrincipalExactly(s: seq<Item>, cause: int, principal: string)
    ensures GroupSize(ClearCauseAndPrincipal(s, cause, principal), cause, principal)
         == Max(GroupSize(s, cause, principal) - 1, 0)
    ensures GroupSize(ClearCauseAndPrincipal(s, cause, principal), cause, principal) == 0
       <==> GroupSize(s, cause, principal) <= 1
    ensures forall i :: 0 <= i < |s| && Find(s, principal, cause, None) == Some(i) ==>
      ClearCauseAndPrincipal(s, cause, principal) == s[..i] + s[i + 1..]
  {
    RemovesFoundItem(s, principal, cause, None);
    NoGroupNoSize(s, cause, principal);
    match Find(s, principal, cause, None)
    case None =>
    case Some(i) =>
      GroupSizeAfterRemoval(s, i, cause, principal);
      assert ClearCauseAndPrincipal(s, cause, principal) == s[..i] + s[i + 1..];
  }

  lemma {:induction false} NoGroupNoSize(s: seq<Item>, cause: int, principal: string)
    ensures GroupSize(s, cause, principal) == 0 <==> forall k :: 0 <= k < |s| ==> !SameGroup(s[k], principal, cause)
  {
    if s != [] {
      NoGroupNoSize(s[1..], cause, principal);
      if GroupSize(s, cause, principal) == 0 {
        forall k | 0 <= k < |s| ensures !SameGroup(s[k], principal, cause) {
          assert k > 0 ==> s[1..][k - 1] == s[k];
        }
      }
      if forall k :: 0 <= k < |s| ==> !SameGroup(s[k], principal, cause) {
        assert forall k :: 0 <= k < |s[1..]| ==> s[1..][k] == s[k + 1];
      }
    }
  }

  /** A cause whose assignments never carry a reference has at most one item per principal, so for it
      the promise is kept. */
  lemma {:induction false} ReferencelessCauseIsCleared(s: seq<Item>, cause: int, principal: string)
    requires Ordered(s)
    requires forall item :: item in s && item.cause == cause ==> Lacking(item.reference)
    ensures GroupSize(s, cause, principal) <= 1
    ensures GroupSize(ClearCauseAndPrincipal(s, cause, principal), cause, principal) == 0
  {
    if s != [] {
      ReferencelessCauseIsCleared(s[1..], cause, principal);
      if SameGroup(s[0], principal, cause) {
        forall k | 0 <= k < |s[1..]| ensures !SameGroup(s[1..][k], principal, cause) {
          assert s[1..][k] == s[k + 1] && s[k + 1] in s;
        }
        NoGroupNoSize(s[1..], cause, principal);
      }
    }
    ClearCauseAndPrincipalExactly(s, cause, principal);
  }

  /** Two invitations of one principal: clearing by cause and principal leaves the second. */
  lemma InvitationsAreNotAllCleared()
    ensures var second := Item("peter", ["Editor"], VIA_INVITATION, Some("fd:2"));
      var s := [Item("peter", ["Reader"], VIA_INVITATION, Some("fd:1")), second];
      Ordered(s) && ClearCauseAndPrincipal(s, VIA_INVITATION, "peter") == [second]
  {
    var first := Item("peter", ["Reader"], VIA_INVITATION, Some("fd:1"));
    var second := Item("peter", ["Editor"], VIA_INVITATION, Some("fd:2"));
    assert RemoveFirst([first, second], first) == [second];
  }

  /** Adding to a list whose front has no item of the cause only touches the rest. */
  lemma AddBehind(front: seq<Item>, back: seq<Item>, item: Item)
    requires forall other :: other in front ==> other.cause != item.cause
    ensures AddOrUpdate(front + back, item.principal, item.roles, item.cause, item.reference)
         == front + AddOrUpdate(back, item.principal, item.roles, item.cause, item.reference)
  {
    FindBehind(front, back, item.principal, item.cause, item.reference);
  }

  lemma {:induction false} FindBehind(front: seq<Item>, back: seq<Item>, principal: string, cause: int,
                                     reference: Option<string>)
    requires forall other :: other in front ==> other.cause != cause
    ensures Find(front + back, principal, cause, reference)
         == match Find(back, principal, cause, reference) case Some(i) => Some(|front| + i) case None => None
  {
    if front == [] {
      assert front + back == back;
    } else {
      assert (front + back)[1..] == front[1..] + back;
      FindBehind(front[1..], back, principal, cause, reference);
      assert front[0] in front;
    }
  }

  lemma {:induction false} AddAllBehind(front: seq<Item>, back: seq<Item>, added: seq<Item>, cause: int)
    requires forall other :: other in front ==> other.cause != cause
    requires forall item :: item in added ==> item.cause == cause
    ensures AddAll(front + back, added) == front + AddAll(back, added)
    decreases |added|
  {
    if added != [] {
      var item := added[0];
      assert item in added;
      AddBehind(front, back, item);
      AddAllBehind(front, AddOrUpdate(back, item.principal, item.roles, item.cause, item.reference), added[1..], cause);
    }
  }

  /** Adding several assignments is adding one after the other. */
  lemma {:induction false} AddAllIsEach(s: seq<Item>, a: seq<Item>, b: seq<Item>, item: Item)
    ensures AddAll(s, a + b) == AddAll(AddAll(s, a), b)
    ensures AddAll(s, [item]) == AddOrUpdate(s, item.principal, item.roles, item.cause, item.reference)
    ensures AddAll(s, []) == s
    decreases |a|
  {
    if a == [] {
      assert a + b == b;
    } else {
      assert (a + b)[1..] == a[1..] + b;
      AddAllIsEach(AddOrUpdate(s, a[0].principal, a[0].roles, a[0].cause, a[0].reference), a[1..], b, item);
    }
    assert [item][1..] == [];
  }

  ghost predicate NewGroups(s: seq<Item>, added: seq<Item>) {
    && (forall i, j :: 0 <= i < |s| && 0 <= j < |added| ==> !SameGroup(s[i], added[j].principal, added[j].cause))
    && (forall i, j :: 0 <= i < j < |added| ==> !SameGroup(added[i], added[j].principal, added[j].cause))
  }

  lemma {:induction false} AddAllOfNewGroups(s: seq<Item>, added: seq<Item>)
    requires NewGroups(s, added)
    ensures AddAll(s, added) == s + added
    decreases |added|
  {
    if added != [] {
      var item := added[0];
      assert Find(s, item.principal, item.cause, item.reference) == None;
      AddAllOfNewGroups(s + [item], added[1..]);
      assert s + [item] + added[1..] == s + added;
    } else {
      assert s + added == s;
    }
  }

  /** A reset to assignments of different principals stores exactly these, behind the other causes. */
  lemma ResetStoresExactly(s: seq<Item>, cause: int, assignments: seq<Item>)
    requires forall i :: 0 <= i < |assignments| ==> assignments[i].cause == cause
    requires forall i, j :: 0 <= i < j < |assignments| ==> assignments[i].principal != assignments[j].principal
    ensures Apply(s, Reset(cause, assignments)) == Reject(s, OfCause(cause)) + assignments
  {
    ClearLeavesOthers(s, OfCause(cause));
    var others := Reject(s, OfCause(cause));
    forall i | 0 <= i < |others| ensures others[i].cause != cause { assert others[i] in others; }
    AddAllOfNewGroups(others, assignments);
  }

  /** What is found, in full: the first item of the principal and cause that has the reference, or the
      first one at all when no reference or an empty one is given. */
  lemma FindsFirst(s: seq<Item>, principal: string, cause: int, reference: Option<string>, i: nat)
    requires i < |s|
    ensures Find(s, principal, cause, reference) == Some(i)
       <==> s[i].principal == principal && s[i].cause == cause
            && (reference == None || reference == Some("") || s[i].reference == reference)
            && (forall k :: 0 <= k < i && s[k].principal == principal && s[k].cause == cause ==>
                  reference != None && reference != Some("") && s[k].reference != reference)
  {
  }

  /** Resetting a cause keeps every other assignment in order and stores just the given ones. */
  lemma ResetReplacesCause(s: seq<Item>, cause: int, assignments: seq<Item>)
    requires forall item :: item in assignments ==> item.cause == cause
    ensures Apply(s, Reset(cause, assignments)) == Reject(s, OfCause(cause)) + AddAll([], assignments)
  {
    ClearLeavesOthers(s, OfCause(cause));
    var front := Reject(s, OfCause(cause));
    AddAllBehind(front, [], assignments, cause);
    assert front + [] == front;
  }
}
