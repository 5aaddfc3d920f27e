/** Python's `list.sort`: a stable sort by a total preorder `le`. */
module StableSorting {

  ghost predicate TotalPreorder<T(!new)>(le: (T, T) -> bool) {
    && (forall x, y :: le(x, y) || le(y, x))
    && (forall x, y, z :: le(x, y) && le(y, z) ==> le(x, z))
  }

  ghost predicate Sorted<T>(s: seq<T>, le: (T, T) -> bool) {
    forall i, j :: 0 <= i < j < |s| ==> le(s[i], s[j])
  }

  function Insert<T>(x: T, s: seq<T>, le: (T, T) -> bool): seq<T> {
    if s == [] || le(x, s[0]) then [x] + s else [s[0]] + Insert(x, s[1..], le)
  }

  function StableSort<T>(s: seq<T>, le: (T, T) -> bool): seq<T> {
    if s == [] then [] else Insert(s[0], StableSort(s[1..], le), le)
  }

  /** The elements of `s` that tie with `t`, in the order of `s`. */
  function Ties<T>(s: seq<T>, t: T, le: (T, T) -> bool): seq<T> {
    if s == [] then []
    else (if le(s[0], t) && le(t, s[0]) then [s[0]] else []) + Ties(s[1..], t, le)
  }

  lemma {:induction false} InsertSorted<T(!new)>(x: T, s: seq<T>, le: (T, T) -> bool)
    requires TotalPreorder(le) && Sorted(s, le)
    ensures Sorted(Insert(x, s, le), le)
    ensures multiset(Insert(x, s, le)) == multiset{x} + multiset(s)
  {
    if s == [] || le(x, s[0]) {
      forall k | 0 <= k < |s| ensures le(x, s[k]) { assert k > 0 ==> le(s[0], s[k]); }
    } else {
      assert s == [s[0]] + s[1..];
      InsertSorted(x, s[1..], le);
      var tail := Insert(x, s[1..], le);
      forall k | 0 <= k < |tail| ensures le(s[0], tail[k]) {
        assert tail[k] in multiset(tail);
        assert tail[k] == x || tail[k] in s[1..];
      }
    }
  }

  lemma {:induction false} InsertTies<T(!new)>(x: T, s: seq<T>, t: T, le: (T, T) -> bool)
    requires TotalPreorder(le) && Sorted(s, le)
    ensures Ties(Insert(x, s, le), t, le) == Ties([x] + s, t, le)
  {
    if s == [] || le(x, s[0]) {
    } else {
      InsertTies(x, s[1..], t, le);
      assert ([x] + s)[1..] == s && ([x] + s[1..])[1..] == s[1..];
      assert ([s[0]] + Insert(x, s[1..], le))[1..] == Insert(x, s[1..], le);
    }
  }

  /** The result is a sorted rearrangement in which tied elements keep their order. */
  lemma {:induction false} StableSortCorrect<T(!new)>(s: seq<T>, le: (T, T) -> bool)
    requires TotalPreorder(le)
    ensures Sorted(StableSort(s, le), le)
    ensures multiset(StableSort(s, le)) == multiset(s)
    ensures forall t :: Ties(StableSort(s, le), t, le) == Ties(s, t, le)
  {
    if s != [] {
      assert s == [s[0]] + s[1..];
      var tail := StableSort(s[1..], le);
      StableSortCorrect(s[1..], le);
      InsertSorted(s[0], tail, le);
      forall t ensures Ties(StableSort(s, le), t, le) == Ties(s, t, le) {
        InsertTies(s[0], tail, t, le);
        assert ([s[0]] + tail)[1..] == tail;
      }
    }
  }

  /** Sorting a sorted list changes nothing. */
  lemma {:induction false} StableSortIdentity<T>(s: seq<T>, le: (T, T) -> bool)
    requires Sorted(s, le)
    ensures StableSort(s, le) == s
  {
    if s != [] {
      StableSortIdentity(s[1..], le);
    }
  }
}
