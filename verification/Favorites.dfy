/** The favorites table: positions of each user's favorites, renumbered in place. */
module Favorites {
  import opened Collections

  datatype Favorite = Favorite(userid: string, oguid: string, position: int, title: string, isTitlePersonalized: bool)

  /** Rows by primary key. */
  type Table = map<int, Favorite>

  predicate Owns(rows: Table, userid: string, id: int) {
    id in rows && rows[id].userid == userid
  }

  ghost predicate IsFavorite(rows: Table, userid: string, oguid: string) {
    exists id :: id in rows && rows[id].userid == userid && rows[id].oguid == oguid
  }

  /** At most one favorite per user and object. */
  ghost predicate UniqueObjects(rows: Table) {
    forall i, j :: i in rows && j in rows && i != j && rows[i].userid == rows[j].userid ==>
      rows[i].oguid != rows[j].oguid
  }

  /** Adds `delta` to the user's positions from `lo` to `hi`. */
  function Shifted(rows: Table, userid: string, lo: int, hi: int, delta: int): Table {
    map id | id in rows ::
      if rows[id].userid == userid && lo <= rows[id].position <= hi
      then rows[id].(position := rows[id].position + delta) else rows[id]
  }

  /** The favorites in between make room, then the favorite takes the target position. */
  function Moved(rows: Table, id: int, target: int): Table
    requires id in rows
  {
    var from, userid := rows[id].position, rows[id].userid;
    if from == target then rows
    else
      var others := if from < target then Shifted(rows, userid, from + 1, target, -1)
                    else Shifted(rows, userid, target, from - 1, 1);
      others[id := rows[id].(position := target)]
  }

  /** The user's favorites behind a position, as the database returns them in ascending order. */
  ghost predicate IsQueryBehind(query: seq<int>, rows: Table, userid: string, position: int) {
    && NoDuplicates(query)
    && (forall id :: id in query <==> Owns(rows, userid, id) && rows[id].position > position)
    && (forall i, j :: 0 <= i < j < |query| ==>
          query[i] in rows && query[j] in rows && rows[query[i]].position <= rows[query[j]].position)
  }

  /** Numbers the first `n` favorites of `query` consecutively from `start`. */
  function Renumbered(rows: Table, query: seq<int>, start: int, n: nat): (r: Table)
    requires n <= |query| && forall id :: id in query ==> id in rows
    ensures r.Keys == rows.Keys
  {
    if n == 0 then rows
    else
      var before := Renumbered(rows, query, start, n - 1);
      assert query[n - 1] in query;
      before[query[n - 1] := before[query[n - 1]].(position := start + n - 1)]
  }

  function Deleted(rows: Table, id: int, query: seq<int>): Table
    requires id in rows && forall other :: other in query ==> other in rows
  {
    Renumbered(rows, query, rows[id].position, |query|) - {id}
  }

  function WithoutObject(rows: Table, oguid: string): Table {
    map id | id in rows && rows[id].oguid != oguid :: rows[id]
  }

  /** One behind the greatest of the user's positions, or 0. */
  ghost predicate IsNextPosition(rows: Table, userid: string, position: int) {
    if forall id :: id in rows ==> rows[id].userid != userid then position == 0
    else
      && (exists id :: Owns(rows, userid, id) && rows[id].position == position - 1)
      && (forall id :: Owns(rows, userid, id) ==> rows[id].position < position)
  }

  class FavoriteManager {
    var rows: Table

    constructor ()
      ensures rows == map[]
    {
      rows := map[];
    }

    method GetNextPosition(userid: string) returns (position: int)
      ensures IsNextPosition(rows, userid, position)
    {
      position := 0;
      var todo, any := rows.Keys, false;
      while todo != {}
        invariant todo <= rows.Keys
        invariant !any ==> position == 0 && forall id :: id in rows.Keys - todo ==> rows[id].userid != userid
        invariant any ==> exists id :: Owns(rows, userid, id) && rows[id].position == position - 1
        invariant any ==> forall id :: id in rows.Keys - todo && rows[id].userid == userid ==>
          rows[id].position < position
        decreases todo
      {
        assert (forall id :: id !in todo) ==> todo == {};
        var id :| id in todo;
        todo := todo - {id};
        if rows[id].userid == userid && (!any || rows[id].position >= position) {
          position, any := rows[id].position + 1, true;
          assert Owns(rows, userid, id);
        }
      }
    }

    /** Refused when the user already has this object; the database enforces it. */
    method Add(userid: string, oguid: string, title: string, newId: int) returns (ok: bool)
      requires newId !in rows
      modifies this
      ensures ok <==> !IsFavorite(old(rows), userid, oguid)
      ensures !ok ==> rows == old(rows)
      ensures ok ==> newId in rows && IsNextPosition(old(rows), userid, rows[newId].position)
      ensures ok ==> rows == old(rows)[newId := Favorite(userid, oguid, rows[newId].position, title, false)]
    {
      var position := GetNextPosition(userid);
      if exists id :: id in rows && rows[id].userid == userid && rows[id].oguid == oguid {
        return false;
      }
      rows := rows[newId := Favorite(userid, oguid, position, title, false)];
      return true;
    }

    /** Not found unless the favorite exists and is the user's own. */
    method Delete(userid: string, favId: int, query: seq<int>) returns (found: bool)
      requires Owns(rows, userid, favId) ==> IsQueryBehind(query, rows, userid, rows[favId].position)
      modifies this
      ensures found == Owns(old(rows), userid, favId)
      ensures !found ==> rows == old(rows)
      ensures found ==> rows == Deleted(old(rows), favId, query)
    {
      if favId !in rows || rows[favId].userid != userid {
        return false;
      }
      var start := rows[favId].position;
      ghost var before := rows;
      for i := 0 to |query|
        invariant rows == Renumbered(before, query, start, i)
      {
        assert query[i] in query && Owns(before, userid, query[i]);
        rows := rows[query[i] := rows[query[i]].(position := start + i)];
      }
      rows := rows - {favId};
      return true;
    }

    method Update(userid: string, favId: int, title: string, position: Option<int>) returns (found: bool)
      modifies this
      ensures found == Owns(old(rows), userid, favId)
      ensures !found ==> rows == old(rows)
      ensures found ==>
        var named := if title == "" then old(rows)
                     else old(rows)[favId := old(rows)[favId].(title := title, isTitlePersonalized := true)];
        rows == match position case Some(target) => Moved(named, favId, target) case None => named
    {
      if favId !in rows || rows[favId].userid != userid {
        return false;
      }
      if title != "" {
        rows := rows[favId := rows[favId].(title := title, isTitlePersonalized := true)];
      }
      if position.Some? {
        UpdatePosition(favId, position.value, userid);
      }
      return true;
    }

    method UpdatePosition(favId: int, position: int, userid: string)
      requires Owns(rows, userid, favId)
      modifies this
      ensures rows == Moved(old(rows), favId, position)
    {
      var oldPosition := rows[favId].position;
      if oldPosition == position {
        return;
      } else if oldPosition < position {
        Shift(userid, oldPosition + 1, position, -1);
      } else {
        Shift(userid, position, oldPosition - 1, 1);
      }
      rows := rows[favId := rows[favId].(position := position)];
    }

    /** Visits the selected rows in any order. */
    method Shift(userid: string, lo: int, hi: int, delta: int)
      modifies this
      ensures rows == Shifted(old(rows), userid, lo, hi, delta)
    {
      ghost var before := rows;
      var todo := set id | id in rows && rows[id].userid == userid && lo <= rows[id].position <= hi;
      ghost var selected := todo;
      while todo != {}
        invariant todo <= selected && rows.Keys == before.Keys
        invariant forall id :: id in rows ==>
          rows[id] == if id in selected - todo then before[id].(position := before[id].position + delta) else before[id]
        decreases todo
      {
        assert (forall id :: id !in todo) ==> todo == {};
        var id :| id in todo;
        todo := todo - {id};
        rows := rows[id := rows[id].(position := rows[id].position + delta)];
      }
      assert forall id :: id in rows ==> rows[id] == Shifted(before, userid, lo, hi, delta)[id];
    }

    /** The handler for removed objects deletes every user's favorite of the object and renumbers none;
        while the whole site is removed it does nothing. */
    method RemoveFavorites(oguid: string, siteRemoved: bool)
      modifies this
      ensures siteRemoved ==> rows == old(rows)
      ensures !siteRemoved ==> rows == WithoutObject(old(rows), oguid)
      ensures DistinctPositions(old(rows)) ==> DistinctPositions(rows)
      ensures UniqueObjects(old(rows)) ==> UniqueObjects(rows)
    {
      if siteRemoved {
        return;
      }
      rows := map id | id in rows && rows[id].oguid != oguid :: rows[id];
    }
  }

  // ----- distinct positions and kept order -----

  ghost predicate DistinctPositions(rows: Table) {
    forall i, j :: i in rows && j in rows && i != j && rows[i].userid == rows[j].userid ==>
      rows[i].position != rows[j].position
  }

  /** Two favorites of one user other than `except` keep their order, and nothing but positions of
      that user's favorites changes. */
  ghost predicate OrderKept(rows: Table, rows': Table, userid: string, except: int) {
    && (forall i :: i in rows && i in rows' && i != except ==>
          rows'[i].userid == rows[i].userid && rows'[i].oguid == rows[i].oguid
          && (rows[i].userid != userid ==> rows'[i] == rows[i]))
    && (forall i, j | i in rows && j in rows && i in rows' && j in rows' && i != except && j != except
                      && rows[i].userid == rows[j].userid ::
          rows[i].position < rows[j].position <==> rows'[i].position < rows'[j].position)
  }

  lemma AddKeeps(rows: Table, userid: string, oguid: string, title: string, newId: int, position: int)
    requires DistinctPositions(rows) && newId !in rows && IsNextPosition(rows, userid, position)
    ensures var rows' := rows[newId := Favorite(userid, oguid, position, title, false)];
      && DistinctPositions(rows') && OrderKept(rows, rows', userid, newId)
      && forall id :: Owns(rows, userid, id) ==> rows'[id].position < position
  {
    forall id | Owns(rows, userid, id) ensures rows[id].position < position { }
  }

  /** Where a favorite ends up when another one is moved from position `from` to `target`. */
  function Slid(position: int, from: int, target: int): int {
    if from < position <= target then position - 1
    else if target <= position < from then position + 1
    else position
  }

  lemma MovedAt(rows: Table, id: int, target: int, i: int)
    requires id in rows && i in rows
    ensures i in Moved(rows, id, target)
    ensures Moved(rows, id, target)[i] == rows[i].(position :=
      if i == id then target
      else if rows[i].userid == rows[id].userid then Slid(rows[i].position, rows[id].position, target)
      else rows[i].position)
  {
  }

  lemma SlidPair(p: int, q: int, from: int, target: int)
    requires p != from && q != from
    ensures p < q <==> Slid(p, from, target) < Slid(q, from, target)
    ensures Slid(p, from, target) != target
  {
  }

  lemma MoveKeeps(rows: Table, id: int, target: int)
    requires DistinctPositions(rows) && id in rows
    ensures DistinctPositions(Moved(rows, id, target))
    ensures OrderKept(rows, Moved(rows, id, target), rows[id].userid, id)
    ensures Moved(rows, id, target)[id] == rows[id].(position := target)
  {
    var rows' := Moved(rows, id, target);
    assert rows'.Keys == rows.Keys;
    forall i | i in rows
      ensures rows'[i].userid == rows[i].userid && rows'[i].oguid == rows[i].oguid
      ensures i == id ==> rows'[i].position == target
      ensures rows[i].userid != rows[id].userid ==> rows'[i] == rows[i]
    {
      MovedAt(rows, id, target, i);
    }
    forall i, j | i in rows && j in rows && i != j && i != id && j != id && rows[i].userid == rows[j].userid
      ensures rows[i].position < rows[j].position <==> rows'[i].position < rows'[j].position
    {
      MovedPair(rows, id, target, i, j);
    }
    forall i | i in rows && i != id && rows[i].userid == rows[id].userid ensures rows'[i].position != target {
      MovedPair(rows, id, target, i, i);
    }
    OrderKeepsDistinct(rows, rows', id);
  }

  lemma MovedPair(rows: Table, id: int, target: int, i: int, j: int)
    requires DistinctPositions(rows) && id in rows && i in rows && j in rows && i != id && j != id
    requires rows[i].userid == rows[j].userid
    ensures var rows' := Moved(rows, id, target);
      && i in rows' && j in rows'
      && (rows[i].position < rows[j].position <==> rows'[i].position < rows'[j].position)
      && (rows[i].userid == rows[id].userid ==> rows'[i].position != target)
  {
    MovedAt(rows, id, target, i);
    MovedAt(rows, id, target, j);
    if rows[i].userid == rows[id].userid {
      SlidPair(rows[i].position, rows[j].position, rows[id].position, target);
    }
  }

  lemma OrderKeepsDistinct(rows: Table, rows': Table, id: int)
    requires DistinctPositions(rows) && rows'.Keys == rows.Keys && id in rows
    requires forall i :: i in rows ==> rows'[i].userid == rows[i].userid
    requires forall i, j | i in rows && j in rows && i != j && i != id && j != id && rows[i].userid == rows[j].userid ::
      rows[i].position < rows[j].position <==> rows'[i].position < rows'[j].position
    requires forall i | i in rows && i != id && rows[i].userid == rows[id].userid ::
      rows'[i].position != rows'[id].position
    ensures DistinctPositions(rows')
  {
  }

  lemma {:induction false} RenumberedAt(rows: Table, query: seq<int>, start: int, n: nat, k: nat)
    requires n <= |query| && NoDuplicates(query) && forall id :: id in query ==> id in rows
    requires k < |query|
    ensures query[k] in rows
    ensures Renumbered(rows, query, start, n)[query[k]]
         == if k < n then rows[query[k]].(position := start + k) else rows[query[k]]
  {
    var id := query[k];
    assert id in query && id in rows;
    if n > 0 {
      RenumberedAt(rows, query, start, n - 1, k);
      assert query[n - 1] == query[k] <==> n - 1 == k;
    }
  }

  lemma {:induction false} RenumberedOther(rows: Table, query: seq<int>, start: int, n: nat, id: int)
    requires n <= |query| && forall other :: other in query ==> other in rows
    requires id in rows && id !in query
    ensures Renumbered(rows, query, start, n)[id] == rows[id]
  {
    if n > 0 {
      RenumberedOther(rows, query, start, n - 1, id);
      assert query[n - 1] in query;
    }
  }

  /** Where one of the remaining favorites ends up: at `start + a` if it is number `a` behind the
      deleted one, and where it was otherwise. */
  lemma DeletedOne(rows: Table, userid: string, favId: int, query: seq<int>, i: int) returns (a: nat)
    requires DistinctPositions(rows) && Owns(rows, userid, favId)
    requires IsQueryBehind(query, rows, userid, rows[favId].position)
    requires i in rows && i != favId
    ensures var rows' := Deleted(rows, favId, query);
      && i in rows'
      && (i in query ==> a < |query| && query[a] == i && rows'[i] == rows[i].(position := rows[favId].position + a))
      && (i !in query ==> rows'[i] == rows[i])
      && (i !in query && rows[i].userid == userid ==> rows[i].position < rows[favId].position)
  {
    var start := rows[favId].position;
    if i in query {
      a :| 0 <= a < |query| && query[a] == i;
      RenumberedAt(rows, query, start, |query|, a);
    } else {
      a := 0;
      RenumberedOther(rows, query, start, |query|, i);
    }
  }

  lemma DeleteKeeps(rows: Table, userid: string, favId: int, query: seq<int>)
    requires DistinctPositions(rows) && Owns(rows, userid, favId)
    requires IsQueryBehind(query, rows, userid, rows[favId].position)
    ensures DistinctPositions(Deleted(rows, favId, query))
    ensures OrderKept(rows, Deleted(rows, favId, query), userid, favId)
  {
    forall i | i in rows && i != favId
      ensures var rows' := Deleted(rows, favId, query);
        i in rows' && rows'[i].userid == rows[i].userid && rows'[i].oguid == rows[i].oguid
        && (rows[i].userid != userid ==> rows'[i] == rows[i])
    {
      var a := DeletedOne(rows, userid, favId, query, i);
    }
    var rows' := Deleted(rows, favId, query);
    forall i, j | i in rows' && j in rows' && i != j && rows[i].userid == rows[j].userid
      ensures rows[i].position < rows[j].position <==> rows'[i].position < rows'[j].position
      ensures rows'[i].position != rows'[j].position
    {
      DeletedPair(rows, userid, favId, query, i, j);
    }
  }

  /** Where two of the remaining favorites of one user end up. */
  lemma DeletedPair(rows: Table, userid: string, favId: int, query: seq<int>, i: int, j: int)
    requires DistinctPositions(rows) && Owns(rows, userid, favId)
    requires IsQueryBehind(query, rows, userid, rows[favId].position)
    requires i in rows && j in rows && i != j && i != favId && j != favId && rows[i].userid == rows[j].userid
    ensures var rows' := Deleted(rows, favId, query);
      && i in rows' && j in rows'
      && (rows[i].position < rows[j].position <==> rows'[i].position < rows'[j].position)
      && rows'[i].position != rows'[j].position
  {
    var a := DeletedOne(rows, userid, favId, query, i);
    var b := DeletedOne(rows, userid, favId, query, j);
    if i in query && j in query {
      assert rows[i].position < rows[j].position <==> a < b;
    }
  }

  lemma RemovalKeeps(rows: Table, oguid: string, userid: string, except: int)
    requires DistinctPositions(rows)
    ensures DistinctPositions(WithoutObject(rows, oguid))
    ensures OrderKept(rows, WithoutObject(rows, oguid), userid, except)
  {
  }

  datatype Operation =
    | AddFavorite(userid: string, oguid: string, title: string, newId: int, position: int)
    | DeleteFavorite(userid: string, favId: int, query: seq<int>)
    | MoveFavorite(userid: string, favId: int, target: int)
    | RemoveObject(oguid: string)

  ghost predicate Enabled(rows: Table, op: Operation) {
    match op
    case AddFavorite(userid, oguid, _, newId, position) =>
      newId !in rows && IsNextPosition(rows, userid, position) && !IsFavorite(rows, userid, oguid)
    case DeleteFavorite(userid, favId, query) =>
      Owns(rows, userid, favId) && IsQueryBehind(query, rows, userid, rows[favId].position)
    case MoveFavorite(userid, favId, _) => Owns(rows, userid, favId)
    case RemoveObject(_) => true
  }

  ghost function Apply(rows: Table, op: Operation): Table
    requires Enabled(rows, op)
  {
    match op
    case AddFavorite(userid, oguid, title, newId, position) =>
      rows[newId := Favorite(userid, oguid, position, title, false)]
    case DeleteFavorite(_, favId, query) => Deleted(rows, favId, query)
    case MoveFavorite(_, favId, target) => Moved(rows, favId, target)
    case RemoveObject(oguid) => WithoutObject(rows, oguid)
  }

  /** `tables` are the states of a run of operations from the empty table. */
  ghost predicate IsRun(tables: seq<Table>, ops: seq<Operation>) {
    && |tables| == |ops| + 1 && tables[0] == map[]
    && forall k :: 0 <= k < |ops| ==> Enabled(tables[k], ops[k]) && tables[k + 1] == Apply(tables[k], ops[k])
  }

  lemma StepKeepsDistinct(rows: Table, op: Operation)
    requires DistinctPositions(rows) && Enabled(rows, op)
    ensures DistinctPositions(Apply(rows, op))
  {
    match op
    case AddFavorite(userid, oguid, title, newId, position) => AddKeeps(rows, userid, oguid, title, newId, position);
    case DeleteFavorite(userid, favId, query) => DeleteKeeps(rows, userid, favId, query);
    case MoveFavorite(userid, favId, target) => MoveKeeps(rows, favId, target);
    case RemoveObject(oguid) => RemovalKeeps(rows, oguid, "", 0);
  }

  /** No favorite changes its user or object, and none comes back. */
  ghost predicate SameObjects(rows: Table, rows': Table) {
    forall i :: i in rows' ==> i in rows && rows'[i].userid == rows[i].userid && rows'[i].oguid == rows[i].oguid
  }

  lemma StepKeepsUnique(rows: Table, op: Operation)
    requires DistinctPositions(rows) && UniqueObjects(rows) && Enabled(rows, op)
    ensures UniqueObjects(Apply(rows, op))
  {
    match op
    case AddFavorite(_, _, _, _, _) =>
    case DeleteFavorite(userid, favId, query) =>
      forall i | i in Deleted(rows, favId, query)
        ensures i in rows && Deleted(rows, favId, query)[i].userid == rows[i].userid
        ensures Deleted(rows, favId, query)[i].oguid == rows[i].oguid
      {
        var a := DeletedOne(rows, userid, favId, query, i);
      }
      assert SameObjects(rows, Deleted(rows, favId, query));
    case MoveFavorite(_, favId, target) =>
      forall i | i in Moved(rows, favId, target)
        ensures i in rows && Moved(rows, favId, target)[i].userid == rows[i].userid
        ensures Moved(rows, favId, target)[i].oguid == rows[i].oguid
      {
        MovedAt(rows, favId, target, i);
      }
      assert SameObjects(rows, Moved(rows, favId, target));
    case RemoveObject(_) =>
  }

  /** In every run, gaps or not and to whatever targets, no two favorites of a user share a position, and
      no two are for the same object. */
  lemma {:induction false} RunKeepsDistinct(tables: seq<Table>, ops: seq<Operation>, k: nat)
    requires IsRun(tables, ops) && k < |tables|
    ensures DistinctPositions(tables[k]) && UniqueObjects(tables[k])
  {
    if k > 0 {
      RunKeepsDistinct(tables, ops, k - 1);
      StepKeepsDistinct(tables[k - 1], ops[k - 1]);
      StepKeepsUnique(tables[k - 1], ops[k - 1]);
    }
  }

  // ----- the list of a user -----

  /** The user's favorites are `list`, at positions 0, 1, 2 and so on. */
  ghost predicate IsList(rows: Table, userid: string, list: seq<int>) {
    && (forall id :: id in list <==> Owns(rows, userid, id))
    && (forall k :: 0 <= k < |list| ==> list[k] in rows && rows[list[k]].position == k)
  }

  function RemoveAt(list: seq<int>, k: nat): seq<int>
    requires k < |list|
  {
    list[..k] + list[k + 1..]
  }

  function InsertAt(list: seq<int>, k: nat, id: int): seq<int>
    requires k <= |list|
  {
    list[..k] + [id] + list[k..]
  }

  lemma OwnsMember(rows: Table, userid: string, list: seq<int>, k: nat)
    requires IsList(rows, userid, list) && k < |list|
    ensures Owns(rows, userid, list[k])
  {
    assert list[k] in list;
  }

  lemma AddAppends(rows: Table, userid: string, list: seq<int>, oguid: string, title: string, newId: int, position: int)
    requires IsList(rows, userid, list) && newId !in rows && IsNextPosition(rows, userid, position)
    ensures position == |list|
    ensures IsList(rows[newId := Favorite(userid, oguid, position, title, false)], userid, list + [newId])
  {
    if list == [] {
      forall id | id in rows ensures rows[id].userid != userid { assert id !in list; }
    } else {
      var last := list[|list| - 1];
      OwnsMember(rows, userid, list, |list| - 1);
      var id :| Owns(rows, userid, id) && rows[id].position == position - 1;
      assert id in list;
      assert rows[last].position < position;
    }
    forall k | 0 <= k < |list| ensures list[k] in rows { }
  }

  lemma MoveReorders(rows: Table, userid: string, list: seq<int>, k: nat, target: nat)
    requires IsList(rows, userid, list) && k < |list| && target < |list|
    ensures IsList(Moved(rows, list[k], target), userid, InsertAt(RemoveAt(list, k), target, list[k]))
  {
    var id := list[k];
    OwnsMember(rows, userid, list, k);
    var rows' := Moved(rows, id, target);
    var list' := InsertAt(RemoveAt(list, k), target, id);
    ReorderedMembers(list, k, target);
    forall i | 0 <= i < |list'| ensures list'[i] in rows' && rows'[list'[i]].position == i {
      var from := if i == target then k else if k <= i < target then i + 1 else if target < i <= k then i - 1 else i;
      assert list'[i] == list[from];
      OwnsMember(rows, userid, list, from);
    }
    forall other ensures other in list' <==> Owns(rows', userid, other) {
      assert other in list <==> Owns(rows, userid, other);
    }
  }

  lemma ReorderedMembers(list: seq<int>, k: nat, target: nat)
    requires k < |list| && target < |list|
    ensures forall id :: id in InsertAt(RemoveAt(list, k), target, list[k]) <==> id in list
  {
    var rest := RemoveAt(list, k);
    InsertedMembers(list[..k], list[k], list[k + 1..]);
    InsertedMembers(rest[..target], list[k], rest[target..]);
    assert list == list[..k] + [list[k]] + list[k + 1..];
    assert rest == rest[..target] + rest[target..];
  }

  lemma InsertedMembers(a: seq<int>, x: int, b: seq<int>)
    ensures forall id :: id in a + [x] + b <==> id in a + b || id == x
  {
  }

  /** Behind the deleted favorite the database returns the rest of the list. */
  lemma {:induction false} QueryIsRest(rows: Table, userid: string, list: seq<int>, k: nat, query: seq<int>, m: nat)
    requires IsList(rows, userid, list) && k < |list| && DistinctPositions(rows)
    requires IsQueryBehind(query, rows, userid, k) && m <= |query|
    ensures k + m < |list|
    ensures forall i :: 0 <= i < m ==> query[i] == list[k + 1 + i]
  {
    if m > 0 {
      QueryIsRest(rows, userid, list, k, query, m - 1);
      var id := query[m - 1];
      assert id in query;
      var p :| 0 <= p < |list| && list[p] == id;
      if m > 1 {
        assert query[m - 2] == list[k + m - 1];
        assert query[m - 2] != id;
      }
      assert p >= k + m;
      var next := list[k + m];
      OwnsMember(rows, userid, list, k + m);
      assert next in query;
      var q :| 0 <= q < |query| && query[q] == next;
      assert q >= m - 1;
      assert rows[id].position <= rows[next].position;
    }
  }

  lemma DeleteRemoves(rows: Table, userid: string, list: seq<int>, k: nat, query: seq<int>)
    requires IsList(rows, userid, list) && k < |list| && DistinctPositions(rows)
    requires IsQueryBehind(query, rows, userid, k)
    ensures IsList(Deleted(rows, list[k], query), userid, RemoveAt(list, k))
  {
    QueryIsRest(rows, userid, list, k, query, |query|);
    OwnsMember(rows, userid, list, k);
    var rows', list' := Deleted(rows, list[k], query), RemoveAt(list, k);
    forall i | 0 <= i < |list'| ensures list'[i] in rows' && rows'[list'[i]].position == i {
      var from := if i < k then i else i + 1;
      assert list'[i] == list[from];
      OwnsMember(rows, userid, list, from);
      var a := DeletedOne(rows, userid, list[k], query, list[from]);
      assert list[from] in query ==> query[a] == list[k + 1 + a];
    }
    RemovedMembers(rows, list, k);
    forall other ensures other in list' <==> Owns(rows', userid, other) {
      assert other in list <==> Owns(rows, userid, other);
      if other in rows && other != list[k] {
        var a := DeletedOne(rows, userid, list[k], query, other);
      }
    }
  }

  lemma RemovedMembers(rows: Table, list: seq<int>, k: nat)
    requires k < |list| && forall i :: 0 <= i < |list| ==> list[i] in rows && rows[list[i]].position == i
    ensures forall id :: id in RemoveAt(list, k) <==> id in list && id != list[k]
  {
    assert list == list[..k] + [list[k]] + list[k + 1..];
    assert list[k] !in list[..k] && list[k] !in list[k + 1..];
  }

  /** The object is not in the list, or only at its end. */
  ghost predicate OnlyLast(rows: Table, list: seq<int>, oguid: string) {
    forall i, j | 0 <= i < j < |list| && list[i] in rows && list[j] in rows && rows[list[i]].oguid == oguid ::
      rows[list[j]].oguid == oguid
  }

  /** The favorites left have the positions 0, 1, 2 and so on exactly when the removed object was not the
      user's or was his last. */
  lemma RemovalKeepsListExactly(rows: Table, userid: string, list: seq<int>, oguid: string)
    requires IsList(rows, userid, list)
    ensures (exists rest :: IsList(WithoutObject(rows, oguid), userid, rest)) <==> OnlyLast(rows, list, oguid)
  {
    var rows' := WithoutObject(rows, oguid);
    if OnlyLast(rows, list, oguid) {
      var n := FirstOf(rows, list, oguid);
      FrontIsList(rows, userid, list, oguid, n);
    }
    if rest :| IsList(rows', userid, rest) {
      forall i, j | 0 <= i < j < |list| && list[i] in rows && list[j] in rows && rows[list[i]].oguid == oguid
        ensures rows[list[j]].oguid == oguid
      {
        if rows[list[j]].oguid != oguid { NoGapInFront(rows, userid, list, oguid, rest, i, j); }
      }
    }
  }

  /** The number of favorites in front of the first one of the object. */
  function FirstOf(rows: Table, list: seq<int>, oguid: string): (n: nat)
    requires forall k :: 0 <= k < |list| ==> list[k] in rows
    ensures n <= |list| && (n < |list| ==> rows[list[n]].oguid == oguid)
    ensures forall k :: 0 <= k < n ==> rows[list[k]].oguid != oguid
  {
    if list == [] || rows[list[0]].oguid == oguid then 0
    else
      var n := FirstOf(rows, list[1..], oguid);
      assert forall k :: 0 < k <= n ==> list[k] == list[1..][k - 1];
      1 + n
  }

  lemma FrontIsList(rows: Table, userid: string, list: seq<int>, oguid: string, n: nat)
    requires IsList(rows, userid, list) && OnlyLast(rows, list, oguid) && n <= |list|
    requires n < |list| ==> rows[list[n]].oguid == oguid
    requires forall k :: 0 <= k < n ==> rows[list[k]].oguid != oguid
    ensures IsList(WithoutObject(rows, oguid), userid, list[..n])
  {
    var rows', front := WithoutObject(rows, oguid), list[..n];
    forall id ensures id in front <==> Owns(rows', userid, id) {
      assert id in list <==> Owns(rows, userid, id);
      if id in list {
        var k :| 0 <= k < |list| && list[k] == id;
        assert k < n ==> front[k] == id;
      }
    }
  }

  /** Whoever is at position `i` among those left was there before, so nothing was removed there if
      something behind it is left. */
  lemma NoGapInFront(rows: Table, userid: string, list: seq<int>, oguid: string, rest: seq<int>, i: nat, j: nat)
    requires IsList(rows, userid, list) && IsList(WithoutObject(rows, oguid), userid, rest)
    requires i < j < |list| && rows[list[j]].oguid != oguid
    ensures rows[list[i]].oguid != oguid
  {
    var rows' := WithoutObject(rows, oguid);
    OwnsMember(rows, userid, list, j);
    assert Owns(rows', userid, list[j]);
    var k :| 0 <= k < |rest| && rest[k] == list[j];
    OwnsMember(rows', userid, rest, i);
    assert Owns(rows, userid, rest[i]);
    assert rest[i] in list;
    var p :| 0 <= p < |list| && list[p] == rest[i];
    assert p == i;
  }

  /** Removing an object leaves a gap in the list of a user who had it before the end. */
  lemma RemovalLeavesGap()
    ensures var rows: Table := map[1 := Favorite("anna", "fd:1", 0, "a", false),
                               2 := Favorite("anna", "fd:2", 1, "b", false)];
      && IsList(rows, "anna", [1, 2])
      && forall list :: !IsList(WithoutObject(rows, "fd:1"), "anna", list)
  {
    var rows: Table := map[1 := Favorite("anna", "fd:1", 0, "a", false), 2 := Favorite("anna", "fd:2", 1, "b", false)];
    var rows' := WithoutObject(rows, "fd:1");
    assert rows'.Keys == {2};
    forall list ensures !IsList(rows', "anna", list) {
      assert Owns(rows', "anna", 2) && rows'[2].position == 1;
      assert list == [] ==> 2 !in list;
      assert list != [] && list[0] in rows' ==> list[0] == 2;
    }
  }
}
