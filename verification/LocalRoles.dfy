/** The manager: every operation on the assignments ends by deriving the object's local roles. */
module LocalRoles {
  import opened Collections
  import opened RoleAssignments
  import S = RoleStorage

  const OWNER := "Owner"

  datatype Outcome = Done | IndexError | ValueError

  /** The roles handed to `manage_setLocalRoles`: a list, or a generator that can be read once. */
  datatype RoleArgument = List(roles: seq<string>) | Generator(roles: seq<string>)

  /** What is left to read after the test `'Owner' not in roles` has run over the argument. */
  function AfterOwnerTest(argument: RoleArgument): seq<string> {
    match argument
    case List(roles) => roles
    case Generator(roles) => AfterFirstOwner(roles)
  }

  function AfterFirstOwner(roles: seq<string>): seq<string> {
    if roles == [] then [] else if roles[0] == OWNER then roles[1..] else AfterFirstOwner(roles[1..])
  }

  lemma {:induction false} NothingLeftWithoutOwner(roles: seq<string>)
    requires OWNER !in roles
    ensures AfterFirstOwner(roles) == []
  {
    if roles != [] { NothingLeftWithoutOwner(roles[1..]); }
  }

  /** Of a generator with Owner in it, what stands behind the first Owner is left to read. */
  lemma {:induction false} LeftBehindOwner(front: seq<string>, back: seq<string>)
    requires OWNER !in front
    ensures AfterFirstOwner(front + [OWNER] + back) == back
  {
    var roles := front + [OWNER] + back;
    if front == [] {
      assert roles[1..] == back;
    } else {
      assert roles[1..] == front[1..] + [OWNER] + back;
      LeftBehindOwner(front[1..], back);
    }
  }

  lemma {:induction false} LeftAfterOwner(roles: seq<string>)
    ensures SetOf(AfterFirstOwner(roles)) <= SetOf(roles)
  {
    if roles != [] && roles[0] != OWNER { LeftAfterOwner(roles[1..]); }
  }

  ghost function OwnersOf(local: map<string, set<string>>): set<string> {
    set p | p in local && OWNER in local[p]
  }

  /** The local roles that the stored assignments and the owners call for. */
  ghost function Derived(s: seq<S.Item>, owners: set<string>): map<string, set<string>> {
    map p | p in Principals(s) + owners :: StoredRoles(s, p) + (if p in owners then {OWNER} else {})
  }

  ghost function WithOwners(local: map<string, set<string>>, owners: set<string>): map<string, set<string>> {
    map p | p in local.Keys + owners ::
      (if p in local then local[p] else {}) + (if p in owners then {OWNER} else {})
  }

  lemma OneMoreOwner(local: map<string, set<string>>, owners: set<string>, principal: string)
    ensures var before := WithOwners(local, owners);
      WithOwners(local, owners + {principal})
        == before[principal := (if principal in before then before[principal] else {}) + SetOf([OWNER])]
  {
    assert SetOf([OWNER]) == {OWNER};
    var before, after := WithOwners(local, owners), WithOwners(local, owners + {principal});
    var updated := before[principal := (if principal in before then before[principal] else {}) + {OWNER}];
    assert after.Keys == updated.Keys;
    assert forall p :: p in after ==> after[p] == updated[p];
    assert after == updated;
  }

  lemma NoOwners(local: map<string, set<string>>)
    ensures WithOwners(local, {}) == local
  {
    var same := WithOwners(local, {});
    assert same.Keys == local.Keys;
    assert forall p :: p in local ==> same[p] == local[p];
  }

  lemma DerivedFromEffective(effective: map<string, set<string>>, s: seq<S.Item>, owners: set<string>)
    requires IsEffective(effective, s)
    ensures WithOwners(effective, owners) == Derived(s, owners)
  {
    forall p | p in owners && p !in effective ensures StoredRoles(s, p) == {} { NoRolesWithoutAssignment(s, p); }
  }

  predicate OneCause(assignments: seq<S.Item>) {
    forall a :: a in assignments ==> a.cause == assignments[0].cause
  }

  ghost predicate RolesGiven(s: seq<S.Item>) {
    forall item :: item in s ==> item.roles != []
  }

  class RoleAssignmentManager {
    const storage: RoleAssignmentStorage
    var localRoles: map<string, set<string>>

    ghost predicate Valid()
      reads storage, storage.Repr
    {
      && storage.Valid() && this as object !in storage.Repr
      && RolesGiven(storage.contents)
    }

    constructor (storage: RoleAssignmentStorage, localRoles: map<string, set<string>>)
      requires storage.Valid() && RolesGiven(storage.contents)
      ensures Valid() && this.storage == storage && this.localRoles == localRoles
    {
      this.storage := storage;
      this.localRoles := localRoles;
    }

    // --- the object's own local roles ---

    method ManageSetLocalRoles(principal: string, roles: RoleArgument)
      requires roles.List? ==> roles.roles != []
      modifies `localRoles
      ensures localRoles == old(localRoles)[principal := SetOf(AfterOwnerTest(roles))]
      ensures roles.List? ==> localRoles[principal] == SetOf(roles.roles)
      ensures roles.Generator? && OWNER !in roles.roles ==> localRoles[principal] == {}
      ensures roles.Generator? && OWNER in roles.roles ==> localRoles[principal] <= SetOf(roles.roles)
    {
      localRoles := localRoles[principal := SetOf(AfterOwnerTest(roles))];
      if OWNER !in roles.roles { NothingLeftWithoutOwner(roles.roles); }
      LeftAfterOwner(roles.roles);
    }

    method ManageAddLocalRoles(principal: string, roles: seq<string>)
      modifies `localRoles
      ensures localRoles == old(localRoles)[principal :=
        (if principal in old(localRoles) then old(localRoles)[principal] else {}) + SetOf(roles)]
    {
      localRoles := localRoles[principal :=
        (if principal in localRoles then localRoles[principal] else {}) + SetOf(roles)];
    }

    method ManageDelLocalRoles(principals: set<string>)
      modifies `localRoles
      ensures localRoles == old(localRoles) - principals
    {
      localRoles := localRoles - principals;
    }

    // --- deriving them ---

    method UpdateLocalRoles()
      requires Valid()
      modifies `localRoles
      ensures Valid() && localRoles == Derived(storage.contents, OwnersOf(old(localRoles)))
    {
      var currentPrincipals, ownerPrincipals := CurrentPrincipals();
      ManageDelLocalRoles(currentPrincipals);
      var effective := storage.ComputeEffective();
      forall p | p in effective ensures effective[p] != {} { EffectiveNotEmpty(storage.contents, p); }
      SetEffective(effective);
      DerivedFromEffective(effective, storage.contents, ownerPrincipals);
      AddOwners(ownerPrincipals);
    }

    method CurrentPrincipals() returns (current: set<string>, owners: set<string>)
      ensures current == localRoles.Keys && owners == OwnersOf(localRoles)
    {
      current, owners := {}, {};
      var todo := localRoles.Keys;
      while todo != {}
        invariant todo <= localRoles.Keys && current == localRoles.Keys - todo
        invariant owners == OwnersOf(localRoles) - todo
        decreases todo
      {
        var principal :| principal in todo;
        todo := todo - {principal};
        current := current + {principal};
        if OWNER in localRoles[principal] {
          owners := owners + {principal};
        }
      }
    }

    method SetEffective(effective: map<string, set<string>>)
      requires localRoles == map[] && forall p :: p in effective ==> effective[p] != {}
      modifies `localRoles
      ensures localRoles == effective
    {
      var todo := effective.Keys;
      while todo != {}
        invariant todo <= effective.Keys && localRoles == effective - todo
        decreases todo
      {
        var principal :| principal in todo;
        assert effective - (todo - {principal}) == (effective - todo)[principal := effective[principal]];
        todo := todo - {principal};
        var roles := ListOf(effective[principal]);
        ManageSetLocalRoles(principal, List(roles));
      }
      assert effective - {} == effective;
    }

    method AddOwners(owners: set<string>)
      modifies `localRoles
      ensures localRoles == WithOwners(old(localRoles), owners)
    {
      ghost var before := localRoles;
      NoOwners(before);
      var todo := owners;
      ghost var done := {};
      while todo != {}
        invariant done + todo == owners
        invariant localRoles == WithOwners(before, done)
        decreases todo
      {
        var principal :| principal in todo;
        OneMoreOwner(before, done, principal);
        todo, done := todo - {principal}, done + {principal};
        ManageAddLocalRoles(principal, [OWNER]);
      }
    }

    // --- the operations ---

    method AddOrUpdate(principal: string, roles: seq<string>, cause: int, reference: Option<string>)
      requires Valid() && roles != []
      modifies this, storage.Repr
      ensures Valid() && fresh(storage.Repr - old(storage.Repr))
      ensures storage.contents == S.AddOrUpdate(old(storage.contents), principal, roles, cause, reference)
      ensures localRoles == Derived(storage.contents, OwnersOf(old(localRoles)))
    {
      storage.AddOrUpdate(principal, roles, cause, reference);
      UpdateLocalRoles();
    }

    method AddOrUpdateAssignments(assignments: seq<S.Item>)
      requires Valid() && RolesGiven(assignments)
      modifies this, storage.Repr
      ensures Valid() && fresh(storage.Repr - old(storage.Repr))
      ensures storage.contents == S.AddAll(old(storage.contents), assignments)
      ensures localRoles == Derived(storage.contents, OwnersOf(old(localRoles)))
    {
      StoreAll(assignments);
      UpdateLocalRoles();
    }

    method StoreAll(assignments: seq<S.Item>)
      requires Valid() && RolesGiven(assignments)
      modifies storage.Repr
      ensures Valid() && fresh(storage.Repr - old(storage.Repr))
      ensures storage.contents == S.AddAll(old(storage.contents), assignments)
    {
      assert assignments[0..] == assignments;
      for i := 0 to |assignments|
        invariant Valid() && fresh(storage.Repr - old(storage.Repr))
        invariant S.AddAll(storage.contents, assignments[i..]) == S.AddAll(old(storage.contents), assignments)
      {
        var a := assignments[i];
        assert assignments[i..][0] == a && assignments[i..][1..] == assignments[i + 1..];
        storage.AddOrUpdate(a.principal, a.roles, a.cause, a.reference);
      }
    }

    method Reset(assignments: seq<S.Item>) returns (outcome: Outcome)
      requires Valid() && RolesGiven(assignments)
      modifies this, storage.Repr
      ensures Valid() && fresh(storage.Repr - old(storage.Repr))
      ensures outcome == if assignments == [] then IndexError
                         else if OneCause(assignments) then Done else ValueError
      ensures outcome == ValueError <==> exists a, b :: a in assignments && b in assignments && a.cause != b.cause
      ensures outcome != Done ==> storage.contents == old(storage.contents) && localRoles == old(localRoles)
      ensures outcome == Done ==>
        && storage.contents == S.Apply(old(storage.contents), S.Reset(assignments[0].cause, assignments))
        && localRoles == Derived(storage.contents, OwnersOf(old(localRoles)))
    {
      if assignments == [] {
        return IndexError;
      }
      if !OneCause(assignments) {
        return ValueError;
      }
      ReplaceCause(assignments[0].cause, assignments);
      UpdateLocalRoles();
      return Done;
    }

    method ReplaceCause(cause: int, assignments: seq<S.Item>)
      requires Valid() && RolesGiven(assignments)
      modifies storage.Repr
      ensures Valid() && fresh(storage.Repr - old(storage.Repr))
      ensures storage.contents == S.Apply(old(storage.contents), S.Reset(cause, assignments))
    {
      S.ClearLeavesOthers(storage.contents, S.OfCause(cause));
      storage.ClearBy(S.OfCause(cause));
      StoreAll(assignments);
    }

    method ClearAll()
      requires Valid()
      modifies this, storage
      ensures Valid() && storage.contents == []
      ensures localRoles == Derived([], OwnersOf(old(localRoles)))
    {
      storage.ClearAll();
      UpdateLocalRoles();
    }

    method ClearByCauseAndPrincipals(cause: int, principals: seq<string>)
      requires Valid()
      modifies this, storage
      ensures Valid()
      ensures storage.contents == ClearPrincipals(old(storage.contents), cause, principals)
      ensures localRoles == Derived(storage.contents, OwnersOf(old(localRoles)))
    {
      assert principals[..0] == [];
      for i := 0 to |principals|
        invariant Valid() && localRoles == old(localRoles)
        invariant storage.contents == ClearPrincipals(old(storage.contents), cause, principals[..i])
      {
        assert principals[..i + 1][..i] == principals[..i];
        ClearingKeepsRolesGiven(storage.contents, cause, principals[i]);
        storage.ClearByCauseAndPrincipal(cause, principals[i]);
      }
      assert principals[..|principals|] == principals;
      UpdateLocalRoles();
    }

    method ClearByReference(oguid: string)
      requires Valid()
      modifies this, storage
      ensures Valid()
      ensures storage.contents == S.Reject(old(storage.contents), S.OfReference(Some(oguid)))
      ensures localRoles == Derived(storage.contents, OwnersOf(old(localRoles)))
    {
      storage.ClearBy(S.OfReference(Some(oguid)));
      UpdateLocalRoles();
    }

    /** Clearing an assignment that is not there does not even derive the local roles again. */
    method Clear(cause: int, principal: string, oguid: string)
      requires Valid()
      modifies this, storage
      ensures Valid()
      ensures storage.contents == S.ClearFound(old(storage.contents), principal, cause, Some(oguid))
      ensures localRoles == if S.Find(old(storage.contents), principal, cause, Some(oguid)) == None
                            then old(localRoles)
                            else Derived(storage.contents, OwnersOf(old(localRoles)))
    {
      var item, position := storage.Get(principal, cause, Some(oguid));
      if item == null {
        return;
      }
      RemovalKeepsRolesGiven(storage.contents, storage.contents[position]);
      storage.Clear(item, position);
      UpdateLocalRoles();
    }

    /** The roles of a former owner are passed as a generator, which the patched
        `manage_setLocalRoles` uses up before storing it: he loses all his roles, not only Owner. */
    method SetNewOwner(userId: string)
      requires Valid()
      modifies `localRoles
      ensures Valid()
      ensures localRoles == AfterNewOwner(old(localRoles), userId)
    {
      var todo := localRoles.Keys;
      ghost var before := localRoles;
      while todo != {}
        invariant Valid()
        invariant todo <= before.Keys
        invariant localRoles.Keys == before.Keys
        invariant forall p :: p in before ==>
          localRoles[p] == if p !in todo && OWNER in before[p] then {} else before[p]
        decreases todo
      {
        var principal :| principal in todo;
        todo := todo - {principal};
        if OWNER in localRoles[principal] {
          var newRoles := ListOf(localRoles[principal] - {OWNER});
          assert forall r :: r in newRoles ==> r in SetOf(newRoles);
          NothingLeftWithoutOwner(newRoles);
          ManageSetLocalRoles(principal, Generator(newRoles));
          assert SetOf([]) == {};
        }
      }
      ghost var stripped := localRoles;
      ManageAddLocalRoles(userId, [OWNER]);
      NewOwnerAdded(before, stripped, userId);
    }

    /** After a copy only assignments of the kept causes remain. */
    method UpdateLocalRolesAfterCopying(newOwner: string) returns (allDeleted: bool)
      requires Valid()
      modifies this, storage
      ensures Valid()
      ensures storage.contents == Dropping(old(storage.contents), DROPPED_WHEN_COPYING)
      ensures localRoles == Derived(storage.contents, {newOwner})
      ensures allDeleted <==> forall item :: item in old(storage.contents) ==> item.cause !in S.KEPT_WHEN_COPYING
    {
      allDeleted := ClearCausesNotKept(S.REGISTERED_CAUSES);
      assert NotKept(S.REGISTERED_CAUSES) == DROPPED_WHEN_COPYING;
      SetNewOwner(newOwner);
      assert OwnersOf(localRoles) == {newOwner};
      UpdateLocalRoles();
    }

    /** Treats one more cause; tells whether assignments of this cause stay. */
    method ClearUnlessKept(causes: seq<int>, i: nat, ghost before: seq<S.Item>) returns (keeps: bool)
      requires Valid() && i < |causes| && Cleared(storage.contents, before, causes[..i])
      modifies storage
      ensures Valid() && storage.Repr == old(storage.Repr)
      ensures Cleared(storage.contents, before, causes[..i + 1])
      ensures NoneKept(before, causes[..i + 1]) <==> NoneKept(before, causes[..i]) && !keeps
    {
      var cause := causes[i];
      ghost var done := causes[..i];
      assert causes[..i + 1] == done + [cause];
      NotKeptSplits(done, cause);
      DroppingMembers(before, NotKept(done));
      keeps := false;
      if cause !in S.KEPT_WHEN_COPYING {
        assert NotKept([cause]) == {cause};
        DroppingOneMore(before, NotKept(done), cause);
        storage.ClearBy(S.OfCause(cause));
      } else {
        assert NotKept([cause]) == {} && NotKept(done) + {} == NotKept(done);
        var selected := storage.Select(S.OfCause(cause));
        NothingSelected(storage.contents, cause);
        keeps := selected != [];
      }
    }

    method ClearCausesNotKept(causes: seq<int>) returns (allDeleted: bool)
      requires Valid()
      modifies storage
      ensures Valid() && Cleared(storage.contents, old(storage.contents), causes)
      ensures allDeleted <==> NoneKept(old(storage.contents), causes)
    {
      allDeleted := true;
      ghost var before := storage.contents;
      DroppingNothing(before);
      assert NotKept(causes[..0]) == {};
      for i := 0 to |causes|
        invariant Valid() && Cleared(storage.contents, before, causes[..i])
        invariant allDeleted <==> NoneKept(before, causes[..i])
      {
        var keeps := ClearUnlessKept(causes, i, before);
        allDeleted := allDeleted && !keeps;
      }
      assert causes[..|causes|] == causes;
    }
  }

  ghost predicate Cleared(contents: seq<S.Item>, before: seq<S.Item>, causes: seq<int>) {
    contents == Dropping(before, NotKept(causes))
  }

  const DROPPED_WHEN_COPYING: set<int> := {S.VIA_TASK, S.VIA_TASK_AGENCY, S.VIA_COMMITTEE_GROUP}

  lemma NewOwnerAdded(before: map<string, set<string>>, stripped: map<string, set<string>>, userId: string)
    requires stripped.Keys == before.Keys
    requires forall p :: p in before ==> stripped[p] == if OWNER in before[p] then {} else before[p]
    ensures stripped[userId := (if userId in stripped then stripped[userId] else {}) + SetOf([OWNER])]
         == AfterNewOwner(before, userId)
  {
    assert SetOf([OWNER]) == {OWNER};
    var updated := stripped[userId := (if userId in stripped then stripped[userId] else {}) + {OWNER}];
    var expected := AfterNewOwner(before, userId);
    assert updated.Keys == expected.Keys;
    assert forall p :: p in updated ==> updated[p] == expected[p];
    assert updated == expected;
  }

  ghost function AfterNewOwner(local: map<string, set<string>>, userId: string): map<string, set<string>> {
    map p | p in local.Keys + {userId} ::
      (if p !in local || OWNER in local[p] then {} else local[p]) + (if p == userId then {OWNER} else {})
  }

  function NotKept(causes: seq<int>): set<int> {
    set cause | cause in causes && cause !in S.KEPT_WHEN_COPYING
  }

  ghost predicate NoneKept(s: seq<S.Item>, causes: seq<int>) {
    forall item :: item in s && item.cause in causes ==> item.cause !in S.KEPT_WHEN_COPYING
  }

  lemma NotKeptSplits(causes: seq<int>, cause: int)
    ensures NotKept(causes + [cause]) == NotKept(causes) + NotKept([cause])
  {
  }

  /** The items of no cause in `causes`, in order. */
  function Dropping(s: seq<S.Item>, causes: set<int>): seq<S.Item> {
    if s == [] then []
    else (if s[0].cause in causes then [] else [s[0]]) + Dropping(s[1..], causes)
  }

  lemma {:induction false} DroppingNothing(s: seq<S.Item>)
    ensures Dropping(s, {}) == s
  {
    if s != [] { DroppingNothing(s[1..]); }
  }

  lemma {:induction false} DroppingMembers(s: seq<S.Item>, causes: set<int>)
    ensures forall item :: item in Dropping(s, causes) <==> item in s && item.cause !in causes
  {
    if s != [] { DroppingMembers(s[1..], causes); }
  }

  lemma {:induction false} DroppingOneMore(s: seq<S.Item>, causes: set<int>, cause: int)
    ensures S.Reject(Dropping(s, causes), S.OfCause(cause)) == Dropping(s, causes + {cause})
  {
    if s != [] {
      var rest := Dropping(s[1..], causes);
      DroppingOneMore(s[1..], causes, cause);
      assert Dropping(s, causes) == if s[0].cause in causes then rest else [s[0]] + rest;
      assert ([s[0]] + rest)[1..] == rest;
    }
  }

  lemma {:induction false} NothingSelected(s: seq<S.Item>, cause: int)
    ensures S.Select(s, S.OfCause(cause)) == [] <==> forall item :: item in s ==> item.cause != cause
  {
    if s != [] { NothingSelected(s[1..], cause); }
  }

  function ClearPrincipals(s: seq<S.Item>, cause: int, principals: seq<string>): seq<S.Item> {
    if principals == [] then s
    else S.ClearCauseAndPrincipal(ClearPrincipals(s, cause, principals[..|principals| - 1]), cause,
                                  principals[|principals| - 1])
  }

  /** Clearing for several principals is clearing for one after the other. */
  lemma {:induction false} ClearPrincipalsIsEach(s: seq<S.Item>, cause: int, a: seq<string>, b: seq<string>, p: string)
    ensures ClearPrincipals(s, cause, a + b) == ClearPrincipals(ClearPrincipals(s, cause, a), cause, b)
    ensures ClearPrincipals(s, cause, [p]) == S.ClearCauseAndPrincipal(s, cause, p)
    ensures ClearPrincipals(s, cause, []) == s
    decreases |b|
  {
    assert [p][..0] == [];
    if b == [] {
      assert a + b == a;
    } else {
      assert (a + b)[..|a + b| - 1] == a + b[..|b| - 1];
      ClearPrincipalsIsEach(s, cause, a, b[..|b| - 1], p);
    }
  }

  method ListOf(roles: set<string>) returns (list: seq<string>)
    ensures SetOf(list) == roles
    ensures roles != {} ==> list != []
  {
    list := [];
    var todo := roles;
    while todo != {}
      invariant todo <= roles && SetOf(list) == roles - todo
      decreases todo
    {
      var role :| role in todo;
      todo := todo - {role};
      assert SetOf(list + [role]) == SetOf(list) + {role};
      list := list + [role];
    }
    if list == [] { assert SetOf(list) == {}; }
  }

  /** A principal with stored assignments has at least one role. */
  lemma EffectiveNotEmpty(s: seq<S.Item>, principal: string)
    requires RolesGiven(s) && principal in Principals(s)
    ensures StoredRoles(s, principal) != {}
  {
    var item :| item in s && item.principal == principal;
    var i :| 0 <= i < |s| && s[i] == item;
    StoredRolesAre(s, principal, item.roles[0]);
  }

  lemma RemovalKeepsRolesGiven(s: seq<S.Item>, item: S.Item)
    requires RolesGiven(s) && item in s
    ensures RolesGiven(RemoveFirst(s, item))
  {
    forall other | other in RemoveFirst(s, item) ensures other in s {
      assert other in multiset(RemoveFirst(s, item));
      RemoveFirstMultiset(s, item);
      assert other in multiset(s);
    }
  }

  lemma ClearingKeepsRolesGiven(s: seq<S.Item>, cause: int, principal: string)
    requires RolesGiven(s)
    ensures RolesGiven(S.ClearCauseAndPrincipal(s, cause, principal))
  {
    var found := S.Find(s, principal, cause, None);
    if found.Some? { RemovalKeepsRolesGiven(s, s[found.value]); }
  }

  // ----- what the derived roles mean -----

  /** A role is local to a principal exactly when some stored assignment gives it, or when it is Owner
      and he was an owner before. */
  lemma DerivedMeans(s: seq<S.Item>, owners: set<string>, principal: string, role: string)
    ensures (principal in Derived(s, owners) && role in Derived(s, owners)[principal])
       <==> (exists i :: 0 <= i < |s| && s[i].principal == principal && role in s[i].roles)
            || (role == OWNER && principal in owners)
  {
    StoredRolesAre(s, principal, role);
    if i :| 0 <= i < |s| && s[i].principal == principal && role in s[i].roles {
      assert s[i] in s;
    }
  }

  /** Deriving twice changes nothing as long as no assignment stores the role Owner, and then the
      owners stay the same. */
  lemma DerivingIsIdempotent(s: seq<S.Item>, owners: set<string>)
    requires forall i :: 0 <= i < |s| ==> OWNER !in s[i].roles
    ensures OwnersOf(Derived(s, owners)) == owners
    ensures Derived(s, OwnersOf(Derived(s, owners))) == Derived(s, owners)
  {
    forall p ensures p in OwnersOf(Derived(s, owners)) <==> p in owners { DerivedMeans(s, owners, p, OWNER); }
  }

  /** After copying, a principal is an owner exactly when he is the new owner or an assignment of a
      kept cause stores the role Owner for him; and every role comes from a kept cause. */
  lemma OwnersAfterCopying(s: seq<S.Item>, newOwner: string, principal: string, role: string)
    ensures var local := Derived(Dropping(s, DROPPED_WHEN_COPYING), {newOwner});
      (principal in local && role in local[principal])
        <==> (exists item :: item in s && item.cause !in DROPPED_WHEN_COPYING
                             && item.principal == principal && role in item.roles)
             || (role == OWNER && principal == newOwner)
  {
    var kept := Dropping(s, DROPPED_WHEN_COPYING);
    DroppingMembers(s, DROPPED_WHEN_COPYING);
    DerivedMeans(kept, {newOwner}, principal, role);
    if item :| item in s && item.cause !in DROPPED_WHEN_COPYING && item.principal == principal && role in item.roles {
      var i :| 0 <= i < |kept| && kept[i] == item;
    }
    if i :| 0 <= i < |kept| && kept[i].principal == principal && role in kept[i].roles {
      assert kept[i] in kept;
    }
  }

  /** What is meant: every former owner loses just Owner. */
  ghost function IntendedNewOwner(local: map<string, set<string>>, userId: string): map<string, set<string>> {
    map p | p in local.Keys + {userId} ::
      (if p in local then local[p] - {OWNER} else {}) + (if p == userId then {OWNER} else {})
  }

  /** A principal keeps his other roles exactly when he was no owner or had no other roles. */
  lemma KeepsOtherRolesExactly(local: map<string, set<string>>, userId: string, p: string)
    requires p in local
    ensures AfterNewOwner(local, userId)[p] - {OWNER} == local[p] - {OWNER}
       <==> OWNER !in local[p] || local[p] == {OWNER}
    ensures OWNER in AfterNewOwner(local, userId)[p] <==> p == userId
  {
    assert local[p] - {OWNER} == {} ==> local[p] <= {OWNER};
  }

  /** Setting a new owner does what is meant exactly when no former owner has another role. */
  lemma NewOwnerAsIntendedExactly(local: map<string, set<string>>, userId: string)
    ensures AfterNewOwner(local, userId) == IntendedNewOwner(local, userId)
       <==> forall p :: p in local && OWNER in local[p] ==> local[p] == {OWNER}
  {
    var actual, intended := AfterNewOwner(local, userId), IntendedNewOwner(local, userId);
    assert actual.Keys == intended.Keys;
    forall p | p in actual
      ensures actual[p] == intended[p] <==> (p in local && OWNER in local[p] ==> local[p] == {OWNER})
    {
      if p in local {
        KeepsOtherRolesExactly(local, userId, p);
        assert intended[p] - {OWNER} == local[p] - {OWNER};
      }
    }
    assert actual == intended <==> forall p :: p in actual ==> actual[p] == intended[p];
  }

  /** Deriving the roles afterwards hides the loss: it only looks at who is an owner, and that is the
      new owner alone. Whatever the former owner had from no stored assignment is gone either way. */
  lemma DerivingHidesLoss(s: seq<S.Item>, local: map<string, set<string>>, userId: string)
    ensures OwnersOf(AfterNewOwner(local, userId)) == OwnersOf(IntendedNewOwner(local, userId)) == {userId}
    ensures Derived(s, OwnersOf(AfterNewOwner(local, userId))) == Derived(s, OwnersOf(IntendedNewOwner(local, userId)))
  {
  }

  /** Setting a new owner on its own costs the former owner his other roles. */
  lemma FormerOwnerLosesOtherRoles()
    ensures AfterNewOwner(map["anna" := {OWNER, "Editor"}], "bob") == map["anna" := {}, "bob" := {OWNER}]
  {
    var after := AfterNewOwner(map["anna" := {OWNER, "Editor"}], "bob");
    assert after.Keys == {"anna", "bob"};
    assert after["anna"] == {} && after["bob"] == {OWNER};
  }
}
