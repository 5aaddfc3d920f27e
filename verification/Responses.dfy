/** The response container: ids from creation times, bumped past collisions, and the listing by id. */
module Responses {
  import opened Collections

  /** `created` is the creation time in microseconds. */
  class Response {
    var responseId: Option<int>
    const created: int

    constructor (created: int)
      ensures responseId == None && this.created == created
    {
      responseId := None;
      this.created := created;
    }
  }

  /** The first id from `id` on that is not taken. */
  function FirstFree(taken: set<int>, id: int): (r: int)
    ensures r >= id && r !in taken
    ensures forall k :: id <= k < r ==> k in taken
    decreases |set k | k in taken && k >= id|
  {
    if id in taken then
      assert (set k | k in taken && k >= id) == (set k | k in taken && k >= id + 1) + {id};
      FirstFree(taken, id + 1)
    else id
  }

  /** The keys in ascending order. */
  function Ascending(keys: set<int>): seq<int>
    decreases |keys|
  {
    if keys == {} then []
    else
      var least := Least(keys);
      [least] + Ascending(keys - {least})
  }

  lemma {:induction false} AscendingCorrect(keys: set<int>)
    ensures forall k :: k in Ascending(keys) <==> k in keys
    ensures Increasing(Ascending(keys))
    decreases |keys|
  {
    if keys != {} {
      var least := Least(keys);
      var tail := Ascending(keys - {least});
      AscendingCorrect(keys - {least});
      forall k | 0 <= k < |tail| ensures least < tail[k] { assert tail[k] in tail; }
    }
  }

  function Least(keys: set<int>): (m: int)
    requires keys != {}
    ensures m in keys && forall k :: k in keys ==> m <= k
  {
    SomeLeast(keys);
    var m :| m in keys && forall k :: k in keys ==> m <= k;
    m
  }

  lemma {:induction false} HasLeast(keys: set<int>, x: int)
    requires x in keys
    ensures exists m :: m in keys && forall k :: k in keys ==> m <= k
    decreases |set k | k in keys && k < x|
  {
    if y :| y in keys && y < x {
      var a, b := set k | k in keys && k < y, set k | k in keys && k < x;
      assert y in b && y !in a;
      assert a <= b;
      SmallerSet(a, b);
      HasLeast(keys, y);
    }
  }

  lemma SomeLeast(keys: set<int>)
    requires keys != {}
    ensures exists m :: m in keys && forall k :: k in keys ==> m <= k
  {
    var x := Member(keys);
    HasLeast(keys, x);
  }

  lemma Member(keys: set<int>) returns (x: int)
    requires keys != {}
    ensures x in keys
  {
    assert (forall y :: y !in keys) ==> keys == {};
    x :| x in keys;
  }

  lemma SmallerSet(a: set<int>, b: set<int>)
    requires a < b
    ensures |a| < |b|
  {
    assert b == a + (b - a) && b - a != {};
  }

  datatype Candidate = IsResponse(response: Response) | SomethingElse

  class ResponseContainer {
    /** None until something is first added: the annotation does not exist yet. */
    var storage: Option<map<int, Response>>

    constructor ()
      ensures storage == None
    {
      storage := None;
    }

    function Stored(): map<int, Response>
      reads this
    {
      match storage case Some(m) => m case None => map[]
    }

    /** Anything but a response is refused, although the storage is created by then. A response gets
        the first free id from its creation time on, and no stored response is overwritten. */
    method Add(candidate: Candidate) returns (id: Option<int>)
      modifies this, if candidate.IsResponse? then {candidate.response} else {}
      ensures id.None? <==> candidate.SomethingElse?
      ensures id.None? ==> storage == Some(old(Stored()))
      ensures id.Some? ==>
        && id.value == FirstFree(old(Stored()).Keys, candidate.response.created)
        && candidate.response.responseId == id
        && id.value !in old(Stored())
        && storage == Some(old(Stored())[id.value := candidate.response])
    {
      if storage.None? {
        storage := Some(map[]);
      }
      match candidate {
        case SomethingElse => return None;
        case IsResponse(response) =>
          var responseId := GenerateResponseId(response.created);
          response.responseId := Some(responseId);
          storage := Some(storage.value[responseId := response]);
          return Some(responseId);
      }
    }

    method GenerateResponseId(created: int) returns (responseId: int)
      ensures responseId == FirstFree(Stored().Keys, created)
    {
      responseId := created;
      while responseId in Stored()
        invariant responseId >= created
        invariant FirstFree(Stored().Keys, responseId) == FirstFree(Stored().Keys, created)
        decreases |set k | k in Stored().Keys && k >= responseId|
      {
        assert (set k | k in Stored().Keys && k >= responseId)
            == (set k | k in Stored().Keys && k >= responseId + 1) + {responseId};
        responseId := responseId + 1;
      }
    }

    method List() returns (responses: seq<Response>)
      ensures var keys := Ascending(Stored().Keys);
        |responses| == |keys| && forall i :: 0 <= i < |keys| ==>
          keys[i] in Stored() && responses[i] == Stored()[keys[i]]
    {
      var keys := Ascending(Stored().Keys);
      AscendingCorrect(Stored().Keys);
      responses := [];
      for i := 0 to |keys|
        invariant |responses| == i && forall j :: 0 <= j < i ==> responses[j] == Stored()[keys[j]]
      {
        assert keys[i] in keys;
        responses := responses + [Stored()[keys[i]]];
      }
    }

    /** The response disappears from the listing, and the others stay in order. Deleting what is not there
        raises and changes nothing. */
    method Delete(key: int) returns (ok: bool)
      modifies this
      ensures ok == (key in old(Stored()))
      ensures !ok ==> storage == old(storage)
      ensures ok ==> storage == Some(old(Stored()) - {key})
      ensures ok ==> key in Ascending(old(Stored()).Keys)
                     && Ascending(Stored().Keys) == RemoveFirst(Ascending(old(Stored()).Keys), key)
    {
      if key !in Stored() {
        return false;
      }
      DeletionKeepsListing(Stored().Keys, key);
      storage := Some(Stored() - {key});
      assert Stored().Keys == old(Stored()).Keys - {key};
      return true;
    }
  }

  /** Taking one key out takes it out of the listing and leaves the others in order. */
  lemma {:induction false} DeletionKeepsListing(keys: set<int>, key: int)
    requires key in keys
    ensures key in Ascending(keys) && Ascending(keys - {key}) == RemoveFirst(Ascending(keys), key)
    decreases |keys|
  {
    var least := Least(keys);
    var rest := keys - {least};
    if key != least {
      DeletionKeepsListing(rest, key);
      assert least in keys - {key};
      assert Least(keys - {key}) <= least <= Least(keys - {key});
      assert keys - {key} - {least} == rest - {key};
    }
  }

  // ----- runs -----

  /** The ids assigned to a series of additions, by creation time, to a container without deletions. */
  function Assigned(created: seq<int>): (ids: seq<int>)
    ensures |ids| == |created|
  {
    if created == [] then []
    else
      var ids := Assigned(created[..|created| - 1]);
      ids + [FirstFree(SetOf(ids), created[|created| - 1])]
  }

  function SetOf(ids: seq<int>): set<int> {
    set id | id in ids
  }

  ghost predicate NonDecreasing(s: seq<int>) {
    forall i, j :: 0 <= i < j < |s| ==> s[i] <= s[j]
  }

  ghost predicate Increasing(s: seq<int>) {
    forall i, j :: 0 <= i < j < |s| ==> s[i] < s[j]
  }

  /** Every id from a response's own time up to its assigned id is taken. */
  ghost predicate NoGapsBelow(created: seq<int>, ids: seq<int>)
    requires |created| == |ids|
  {
    forall i, k :: 0 <= i < |ids| && created[i] <= k <= ids[i] ==> k in ids
  }

  lemma NextIdIsGreatest(created: seq<int>, ids: seq<int>, time: int)
    requires |created| == |ids| && NoGapsBelow(created, ids)
    requires forall i :: 0 <= i < |created| ==> created[i] <= time
    ensures forall i :: 0 <= i < |ids| ==> ids[i] < FirstFree(SetOf(ids), time)
  {
    var next := FirstFree(SetOf(ids), time);
    forall i | 0 <= i < |ids| ensures ids[i] < next {
      assert created[i] <= next <= ids[i] ==> next in ids;
    }
  }

  /** With a clock that does not run backwards and no deletions, ids grow from addition to addition:
      nothing is overwritten, and the listing by id is the order of addition. */
  lemma {:induction false} IdsIncrease(created: seq<int>)
    requires NonDecreasing(created)
    ensures NoGapsBelow(created, Assigned(created)) && Increasing(Assigned(created))
  {
    if created != [] {
      var init, time := created[..|created| - 1], created[|created| - 1];
      IdsIncrease(init);
      var ids := Assigned(init);
      NextIdIsGreatest(init, ids, time);
      var next := FirstFree(SetOf(ids), time);
      var all := Assigned(created);
      assert all == ids + [next];
      forall i, k | 0 <= i < |all| && created[i] <= k <= all[i] ensures k in all {
        if i < |ids| {
          assert k in ids;
        } else if k < next {
          assert k in SetOf(ids);
        }
      }
    }
  }

  lemma FirstIsLeast(ids: seq<int>)
    requires Increasing(ids) && ids != []
    ensures SetOf(ids) != {} && Least(SetOf(ids)) == ids[0]
    ensures SetOf(ids) - {ids[0]} == SetOf(ids[1..])
  {
    assert ids[0] in SetOf(ids);
    assert forall k :: k in ids ==> ids[0] <= k;
    assert ids == [ids[0]] + ids[1..];
    assert ids[0] !in ids[1..];
  }

  lemma {:induction false} AscendingOfIncreasing(ids: seq<int>)
    requires Increasing(ids)
    ensures Ascending(SetOf(ids)) == ids
  {
    if ids == [] {
      assert SetOf(ids) == {};
    } else {
      FirstIsLeast(ids);
      AscendingOfIncreasing(ids[1..]);
      assert ids == [ids[0]] + ids[1..];
    }
  }

  /** What `list()` shows after such a run is the additions in order. */
  lemma ListingIsInsertionOrder(created: seq<int>)
    requires NonDecreasing(created)
    ensures Ascending(SetOf(Assigned(created))) == Assigned(created)
  {
    IdsIncrease(created);
    AscendingOfIncreasing(Assigned(created));
  }

  /** For one addition to any container: the new response is listed last exactly when the ids from its
      creation time up to the greatest one are all taken. */
  lemma ListedLastExactly(taken: set<int>, time: int)
    ensures (forall k :: k in taken ==> k < FirstFree(taken, time))
       <==> (forall k, m :: k in taken && time <= m <= k ==> m in taken)
  {
    var next := FirstFree(taken, time);
    if forall k :: k in taken ==> k < next {
      forall k, m | k in taken && time <= m <= k ensures m in taken { assert k < next; }
    }
    if forall k, m :: k in taken && time <= m <= k ==> m in taken {
      forall k | k in taken ensures k < next {
        assert time <= next <= k ==> next in taken;
      }
    }
  }

  /** After a deletion the order of addition can be lost: of three responses of one microsecond, the
      third takes the place of the deleted first. */
  lemma DeletionBreaksOrder()
    ensures Assigned([10, 10]) == [10, 11]
    ensures FirstFree(SetOf([10, 11]) - {10}, 10) < 11
  {
    var once, twice := [10], [10, 10];
    assert twice[..1] == once && once[..0] == [];
    assert Assigned([]) == [] && SetOf([]) == {};
    assert Assigned(once) == [10];
    assert Assigned(twice) == [10] + [FirstFree(SetOf([10]), 10)];
    assert SetOf([10]) == {10};
    assert FirstFree({10}, 10) == FirstFree({10}, 11) == 11;
  }

  // ----- runs with deletions -----

  datatype Change = Added(time: int) | Deleted(key: int)

  /** One addition: its id, its creation time, and the ids that were taken then. */
  datatype Addition = Addition(id: int, time: int, taken: set<int>)

  function Ids(additions: seq<Addition>): (ids: seq<int>)
    ensures |ids| == |additions| && forall i :: 0 <= i < |ids| ==> ids[i] == additions[i].id
  {
    seq(|additions|, i requires 0 <= i < |additions| => additions[i].id)
  }

  function WithoutKey(additions: seq<Addition>, key: int): seq<Addition> {
    if additions == [] then []
    else
      var last := additions[|additions| - 1];
      WithoutKey(additions[..|additions| - 1], key) + (if last.id == key then [] else [last])
  }

  /** The additions that are left, in the order in which they were made. */
  function Left(changes: seq<Change>): seq<Addition> {
    if changes == [] then []
    else
      var before := Left(changes[..|changes| - 1]);
      match changes[|changes| - 1]
      case Added(time) =>
        before + [Addition(FirstFree(SetOf(Ids(before)), time), time, SetOf(Ids(before)))]
      case Deleted(key) => WithoutKey(before, key)
  }

  /** The ids in the container after the same changes. */
  function Keys(changes: seq<Change>): set<int> {
    if changes == [] then {}
    else
      var before := Keys(changes[..|changes| - 1]);
      match changes[|changes| - 1]
      case Added(time) => before + {FirstFree(before, time)}
      case Deleted(key) => before - {key}
  }

  lemma {:induction false} KeysAreLeft(changes: seq<Change>)
    ensures Keys(changes) == SetOf(Ids(Left(changes)))
  {
    if changes != [] {
      var before, left := Left(changes[..|changes| - 1]), Left(changes);
      KeysAreLeft(changes[..|changes| - 1]);
      LeftIsTraced(changes[..|changes| - 1]);
      match changes[|changes| - 1]
      case Added(time) => assert Ids(left) == Ids(before) + [FirstFree(SetOf(Ids(before)), time)];
      case Deleted(key) =>
        WithoutKeyKeepsTraced(before, key);
        IdsWithoutKey(before, key);
    } else {
      assert SetOf(Ids(Left(changes))) == {};
    }
  }

  lemma IdsWithoutKey(additions: seq<Addition>, key: int)
    requires Traced(additions)
    ensures SetOf(Ids(WithoutKey(additions, key))) == SetOf(Ids(additions)) - {key}
  {
    WithoutKeyKeepsTraced(additions, key);
    forall id ensures id in SetOf(Ids(WithoutKey(additions, key))) <==> id in SetOf(Ids(additions)) - {key} { }
  }

  /** Each addition got the first free id, and found the earlier ones that are left. */
  ghost predicate Traced(additions: seq<Addition>) {
    && (forall i :: 0 <= i < |additions| ==> additions[i].id == FirstFree(additions[i].taken, additions[i].time))
    && (forall i, j :: 0 <= i < j < |additions| ==> additions[i].id in additions[j].taken)
  }

  lemma {:induction false} WithoutKeyKeepsTraced(additions: seq<Addition>, key: int)
    requires Traced(additions)
    ensures Traced(WithoutKey(additions, key))
    ensures forall a :: a in WithoutKey(additions, key) <==> a in additions && a.id != key
  {
    if additions != [] {
      var init, last := additions[..|additions| - 1], additions[|additions| - 1];
      WithoutKeyKeepsTraced(init, key);
      var rest := WithoutKey(init, key);
      assert additions == init + [last];
      forall i | 0 <= i < |rest| ensures rest[i].id in last.taken {
        assert rest[i] in init;
        var k :| 0 <= k < |init| && init[k] == rest[i];
        assert additions[k] == init[k];
      }
    }
  }

  lemma {:induction false} LeftIsTraced(changes: seq<Change>)
    ensures Traced(Left(changes))
  {
    if changes != [] {
      var before := Left(changes[..|changes| - 1]);
      LeftIsTraced(changes[..|changes| - 1]);
      match changes[|changes| - 1]
      case Added(time) =>
        forall i | 0 <= i < |before| ensures before[i].id in SetOf(Ids(before)) {
          assert Ids(before)[i] == before[i].id;
        }
      case Deleted(key) => WithoutKeyKeepsTraced(before, key);
    }
  }

  /** When `later` was added, no id was free from its creation time up to the id of `earlier`. */
  ghost predicate NoGapUpTo(earlier: Addition, later: Addition) {
    forall m :: later.time <= m <= earlier.id ==> m in later.taken
  }

  ghost predicate NoGaps(additions: seq<Addition>) {
    forall i, j :: 0 <= i < j < |additions| ==> NoGapUpTo(additions[i], additions[j])
  }

  lemma AddedBehindExactly(earlier: Addition, later: Addition)
    requires later.id == FirstFree(later.taken, later.time) && earlier.id in later.taken
    ensures earlier.id < later.id <==> NoGapUpTo(earlier, later)
  {
    if NoGapUpTo(earlier, later) {
      assert later.time <= later.id <= earlier.id ==> later.id in later.taken;
    }
  }

  lemma AscendingExactly(ids: seq<int>)
    ensures Ascending(SetOf(ids)) == ids <==> Increasing(ids)
  {
    AscendingCorrect(SetOf(ids));
    if Increasing(ids) { AscendingOfIncreasing(ids); }
  }

  /** In any run, with deletions and whatever clock, the listing is the order of addition exactly when no
      response left found, at its addition, a gap in front of an earlier one that is left. */
  lemma ListingIsAdditionOrderExactly(changes: seq<Change>)
    ensures Ascending(Keys(changes)) == Ids(Left(changes)) <==> NoGaps(Left(changes))
  {
    var left := Left(changes);
    KeysAreLeft(changes);
    LeftIsTraced(changes);
    AscendingExactly(Ids(left));
    forall i, j | 0 <= i < j < |left| ensures Ids(left)[i] < Ids(left)[j] <==> NoGapUpTo(left[i], left[j]) {
      AddedBehindExactly(left[i], left[j]);
    }
    if NoGaps(left) {
      assert Increasing(Ids(left));
    }
    if Increasing(Ids(left)) {
      forall i, j | 0 <= i < j < |left| ensures NoGapUpTo(left[i], left[j]) {
        assert Ids(left)[i] < Ids(left)[j];
      }
    }
  }
}
