/** The role assignment storage as mutable records. */
module RoleAssignments {
  import opened Collections
  import S = RoleStorage

  /** A Python list of roles: a reference, so that `+=` would be seen through every alias. */
  class RoleList {
    var roles: seq<string>

    constructor (roles: seq<string>)
      ensures this.roles == roles
    {
      this.roles := roles;
    }

    /** `list += others`, in place. */
    method Extend(others: seq<string>)
      modifies this
      ensures roles == old(roles) + others
      ensures SetOf(roles) == SetOf(old(roles)) + SetOf(others)
    {
      roles := roles + others;
    }
  }

  class Assignment {
    var principal: string
    var roles: RoleList
    var cause: int
    var reference: Option<string>

    constructor (principal: string, roles: RoleList, cause: int, reference: Option<string>)
      ensures this.principal == principal && this.roles == roles
      ensures this.cause == cause && this.reference == reference
    {
      this.principal, this.roles, this.cause, this.reference := principal, roles, cause, reference;
    }

    function Value(): S.Item
      reads this, roles
    {
      S.Item(principal, roles.roles, cause, reference)
    }
  }

  /** The roles stored for a principal, over all its assignments. */
  ghost function StoredRoles(s: seq<S.Item>, principal: string): set<string> {
    if s == [] then {}
    else
      var last := s[|s| - 1];
      StoredRoles(s[..|s| - 1], principal) + (if last.principal == principal then SetOf(last.roles) else {})
  }

  ghost function Principals(s: seq<S.Item>): set<string> {
    set item | item in s :: item.principal
  }

  function SetOf(roles: seq<string>): set<string> {
    set role | role in roles
  }

  lemma {:induction false} StoredRolesAre(s: seq<S.Item>, principal: string, role: string)
    ensures role in StoredRoles(s, principal)
       <==> exists i :: 0 <= i < |s| && s[i].principal == principal && role in s[i].roles
  {
    if s != [] {
      var init := s[..|s| - 1];
      StoredRolesAre(init, principal, role);
      if i :| 0 <= i < |s| && s[i].principal == principal && role in s[i].roles {
        if i < |s| - 1 { assert init[i] == s[i]; }
      }
    }
  }

  lemma FindIs(s: seq<S.Item>, principal: string, cause: int, reference: Option<string>, i: nat)
    requires i < |s| && S.Answers(s[i], principal, cause, reference)
    requires forall k :: 0 <= k < i ==> !S.Answers(s[k], principal, cause, reference)
    ensures S.Find(s, principal, cause, reference) == Some(i)
  {
  }

  class RoleAssignmentStorage {
    var items: seq<Assignment>
    ghost var contents: seq<S.Item>
    ghost var Repr: set<object>

    /** The records are in the representation and hold `values`. */
    ghost predicate Mirrors(records: seq<Assignment>, values: seq<S.Item>)
      reads Repr, `Repr
    {
      && |records| == |values|
      && forall i :: 0 <= i < |records| ==>
        && records[i] in Repr && records[i].roles in Repr
        && records[i] as object != this && records[i].roles as object != this
        && records[i].Value() == values[i]
    }

    /** The records and their role lists are all different objects, and hold `contents`. */
    ghost predicate Valid()
      reads this, Repr
    {
      && this in Repr
      && Mirrors(items, contents)
      && (forall i, j :: 0 <= i < j < |items| ==> items[i] != items[j] && items[i].roles != items[j].roles)
    }

    constructor ()
      ensures Valid() && fresh(Repr) && contents == []
    {
      items, contents, Repr := [], [], {this};
    }

    method Get(principal: string, cause: int, reference: Option<string>)
      returns (found: Assignment?, ghost position: nat)
      requires Valid()
      ensures found == null <==> S.Find(contents, principal, cause, reference) == None
      ensures found != null ==> position < |items| && found == items[position]
                                && S.Find(contents, principal, cause, reference) == Some(position)
    {
      for i := 0 to |items|
        invariant forall k :: 0 <= k < i ==> !S.Answers(contents[k], principal, cause, reference)
      {
        var item := items[i];
        assert contents[i] == item.Value();
        if item.principal == principal && item.cause == cause {
          if S.Lacking(reference) || item.reference == reference {
            FindIs(contents, principal, cause, reference, i);
            return item, i;
          }
        }
      }
      return null, 0;
    }

    method AddOrUpdate(principal: string, roles: seq<string>, cause: int, reference: Option<string>)
      requires Valid()
      modifies Repr
      ensures Valid() && fresh(Repr - old(Repr))
      ensures contents == S.AddOrUpdate(old(contents), principal, roles, cause, reference)
    {
      var assignment, position := Get(principal, cause, reference);
      var data := S.Item(principal, roles, cause, reference);
      if assignment != null {
        Update(assignment, position, data);
      } else {
        Append(data);
      }
    }

    /** `assignment.update(data)` on the record at `position`; the role list is copied. */
    method Update(assignment: Assignment, ghost position: nat, data: S.Item)
      requires Valid() && position < |items| && assignment == items[position]
      modifies `contents, `Repr, assignment
      ensures Valid() && fresh(Repr - old(Repr))
      ensures contents == old(contents)[position := data]
    {
      var copied := new RoleList(data.roles);
      assignment.principal := data.principal;
      assignment.roles := copied;
      assignment.cause := data.cause;
      assignment.reference := data.reference;
      contents := contents[position := data];
      Repr := Repr + {copied};
    }

    method Append(data: S.Item)
      requires Valid()
      modifies this
      ensures Valid() && fresh(Repr - old(Repr))
      ensures contents == old(contents) + [data]
    {
      var copied := new RoleList(data.roles);
      var added := new Assignment(data.principal, copied, data.cause, data.reference);
      items := items + [added];
      contents := contents + [data];
      Repr := Repr + {copied, added};
    }

    method IndexOf(value: S.Item) returns (i: nat)
      requires Valid() && value in contents
      ensures i < |items| && contents[i] == value && value !in contents[..i]
    {
      i := 0;
      while items[i].Value() != value
        invariant 0 <= i < |items|
        invariant value in contents[i..]
        invariant value !in contents[..i]
        decreases |items| - i
      {
        assert contents[i..] == [contents[i]] + contents[i + 1..];
        assert contents[..i + 1] == contents[..i] + [contents[i]];
        i := i + 1;
      }
    }

    /** `list.remove`: drops the first record whose contents equal `value`. */
    method Remove(value: S.Item)
      requires Valid() && value in contents
      modifies `items, `contents
      ensures Valid() && Repr == old(Repr)
      ensures contents == RemoveFirst(old(contents), value)
    {
      var i := IndexOf(value);
      RemoveFirstAt(contents, i);
      items := items[..i] + items[i + 1..];
      contents := contents[..i] + contents[i + 1..];
    }

    /** Removes each of the selected records, by equality, from the list. */
    method RemoveAll(selected: seq<Assignment>, ghost values: seq<S.Item>)
      requires Valid() && multiset(values) <= multiset(contents)
      requires Mirrors(selected, values)
      modifies `items, `contents
      ensures Valid() && Repr == old(Repr)
      ensures contents == S.RemoveEach(old(contents), values)
    {
      ghost var before := contents;
      assert values[0..] == values;
      for i := 0 to |selected|
        invariant Valid() && Repr == old(Repr)
        invariant multiset(values[i..]) <= multiset(contents)
        invariant S.RemoveEach(contents, values[i..]) == S.RemoveEach(before, values)
      {
        RemoveEachUnfolds(contents, values, i);
        Remove(selected[i].Value());
      }
    }

    /** `get_by_cause` and `get_by_reference`. */
    method Select(criterion: S.Criterion) returns (selected: seq<Assignment>)
      requires Valid()
      ensures Mirrors(selected, S.Select(contents, criterion))
    {
      selected := [];
      ghost var values: seq<S.Item> := [];
      assert contents[..0] == [];
      for i := 0 to |items|
        invariant values == S.Select(contents[..i], criterion)
        invariant Mirrors(selected, values)
      {
        assert contents[..i + 1] == contents[..i] + [contents[i]];
        SelectOneMore(contents[..i], contents[i], criterion);
        if S.Meets(items[i].Value(), criterion) {
          selected, values := selected + [items[i]], values + [contents[i]];
        }
      }
      assert contents[..|items|] == contents;
    }

    method ClearBy(criterion: S.Criterion)
      requires Valid()
      modifies `items, `contents
      ensures Valid() && Repr == old(Repr)
      ensures contents == S.Reject(old(contents), criterion)
    {
      S.ClearLeavesOthers(contents, criterion);
      S.SelectedFrom(contents, criterion);
      var selected := Select(criterion);
      RemoveAll(selected, S.Select(contents, criterion));
    }

    method ClearByCauseAndPrincipal(cause: int, principal: string)
      requires Valid()
      modifies `items, `contents
      ensures Valid() && Repr == old(Repr)
      ensures contents == S.ClearCauseAndPrincipal(old(contents), cause, principal)
    {
      var item, position := Get(principal, cause, None);
      if item != null {
        assert contents[position] == item.Value();
        Remove(item.Value());
      }
    }

    method Clear(item: Assignment, ghost position: nat)
      requires Valid() && position < |items| && item == items[position]
      modifies `items, `contents
      ensures Valid() && Repr == old(Repr)
      ensures contents == RemoveFirst(old(contents), old(contents)[position])
    {
      assert contents[position] == item.Value();
      Remove(item.Value());
    }

    method ClearAll()
      requires Valid()
      modifies `items, `contents
      ensures Valid() && Repr == old(Repr) && contents == []
    {
      items, contents := [], [];
    }

    method AddRolesOf(i: nat, data: map<string, RoleList>, ghost sets: map<string, set<string>>)
      returns (data': map<string, RoleList>, ghost sets': map<string, set<string>>)
      requires Valid() && i < |items| && Collected(data, sets) && data.Values !! Repr
      modifies data.Values
      ensures Valid()
      ensures sets' == WithRoles(sets, contents[i].principal, contents[i].roles) && Collected(data', sets')
      ensures forall p :: p in data' ==> (p in data && data'[p] == data[p]) || fresh(data'[p])
    {
      assert items[i].Value() == contents[i];
      data', sets' := AddRoles(data, sets, items[i].principal, items[i].roles.roles);
    }

    /** Collects every principal's roles. Nothing existing is modified, so the stored role lists stay
        as they are: the first list of each principal is copied before the others are added to it. */
    method ComputeEffective() returns (effective: map<string, set<string>>)
      requires Valid()
      ensures IsEffective(effective, contents)
    {
      var data: map<string, RoleList> := map[];
      ghost var sets: map<string, set<string>> := map[];
      for i := 0 to |items|
        invariant Valid()
        invariant forall p :: p in data ==> fresh(data[p])
        invariant Collected(data, sets) && IsEffective(sets, contents[..i])
      {
        assert contents[..i + 1] == contents[..i] + [contents[i]];
        EffectiveStep(sets, contents[..i], contents[i]);
        data, sets := AddRolesOf(i, data, sets);
      }
      assert contents[..|items|] == contents;
      effective := map p | p in data :: SetOf(data[p].roles);
      assert effective == sets;
    }
  }

  /** One list object per principal, holding the roles in `sets`. */
  ghost predicate Collected(data: map<string, RoleList>, sets: map<string, set<string>>)
    reads data.Values
  {
    && data.Keys == sets.Keys
    && (forall p :: p in data ==> SetOf(data[p].roles) == sets[p])
    && (forall p, q :: p in data && q in data && p != q ==> data[p] != data[q])
  }

  ghost function WithRoles(sets: map<string, set<string>>, principal: string, roles: seq<string>)
    : map<string, set<string>>
  {
    sets[principal := (if principal in sets then sets[principal] else {}) + SetOf(roles)]
  }

  method AddRoles(data: map<string, RoleList>, ghost sets: map<string, set<string>>,
                  principal: string, roles: seq<string>)
    returns (data': map<string, RoleList>, ghost sets': map<string, set<string>>)
    requires Collected(data, sets)
    modifies data.Values
    ensures sets' == WithRoles(sets, principal, roles) && Collected(data', sets')
    ensures forall p :: p in data' ==> (p in data && data'[p] == data[p]) || fresh(data'[p])
  {
    if principal !in data {
      var copied := new RoleList(roles);
      data' := data[principal := copied];
    } else {
      assert data[principal] in data.Values;
      data[principal].Extend(roles);
      data' := data;
    }
    sets' := WithRoles(sets, principal, roles);
  }

  ghost predicate IsEffective(effective: map<string, set<string>>, s: seq<S.Item>) {
    effective.Keys == Principals(s) && forall p :: p in effective ==> effective[p] == StoredRoles(s, p)
  }

  lemma EffectiveStep(sets: map<string, set<string>>, s: seq<S.Item>, item: S.Item)
    requires IsEffective(sets, s)
    ensures IsEffective(WithRoles(sets, item.principal, item.roles), s + [item])
  {
    OneMoreAssignment(s, item);
  }

  lemma RemoveEachUnfolds(s: seq<S.Item>, values: seq<S.Item>, i: nat)
    requires i < |values| && multiset(values[i..]) <= multiset(s)
    ensures values[i] in s && multiset(values[i + 1..]) <= multiset(RemoveFirst(s, values[i]))
    ensures S.RemoveEach(s, values[i..]) == S.RemoveEach(RemoveFirst(s, values[i]), values[i + 1..])
  {
    assert values[i..] == [values[i]] + values[i + 1..];
    assert values[i] in multiset(s);
    RemoveFirstMultiset(s, values[i]);
    assert values[i..][1..] == values[i + 1..];
  }

  lemma {:induction false} SelectOneMore(s: seq<S.Item>, item: S.Item, criterion: S.Criterion)
    ensures S.Select(s + [item], criterion)
         == S.Select(s, criterion) + (if S.Meets(item, criterion) then [item] else [])
  {
    if s != [] {
      assert (s + [item])[1..] == s[1..] + [item];
      SelectOneMore(s[1..], item, criterion);
    }
  }

  lemma OneMoreAssignment(s: seq<S.Item>, item: S.Item)
    ensures Principals(s + [item]) == Principals(s) + {item.principal}
    ensures forall p ::
      StoredRoles(s + [item], p) == StoredRoles(s, p) + (if item.principal == p then SetOf(item.roles) else {})
    ensures item.principal !in Principals(s) ==> StoredRoles(s, item.principal) == {}
  {
    assert (s + [item])[..|s|] == s;
    assert (s + [item])[|s|] == item;
    forall p ensures p in Principals(s + [item]) <==> p in Principals(s) + {item.principal} {
      if p in Principals(s) {
        var other :| other in s && other.principal == p;
        assert other in s + [item];
      }
    }
    if item.principal !in Principals(s) { NoRolesWithoutAssignment(s, item.principal); }
  }

  lemma {:induction false} NoRolesWithoutAssignment(s: seq<S.Item>, principal: string)
    requires principal !in Principals(s)
    ensures StoredRoles(s, principal) == {}
  {
    if s != [] {
      assert s[|s| - 1] in s;
      assert principal !in Principals(s[..|s| - 1]);
      NoRolesWithoutAssignment(s[..|s| - 1], principal);
    }
  }
}
