/** Small value types and list operations shared by the other modules. */
module Collections {

  datatype Option<+T> = None | Some(value: T)

  /** A Python slice `s[:n]`: a negative bound counts from the end. */
  function Take<T>(s: seq<T>, n: int): (r: seq<T>)
    ensures r <= s
    ensures |r| == if n >= |s| then |s| else if n >= 0 then n else if n + |s| >= 0 then n + |s| else 0
  {
    if n >= |s| then s
    else if n >= 0 then s[..n]
    else if n + |s| >= 0 then s[..n + |s|]
    else []
  }

  /** Python's `list.remove`: drops the first element equal to `x`. */
  function RemoveFirst<T(==)>(s: seq<T>, x: T): (r: seq<T>)
    requires x in s
    ensures |r| == |s| - 1
  {
    if s[0] == x then s[1..] else [s[0]] + RemoveFirst(s[1..], x)
  }

  lemma {:induction false} RemoveFirstMultiset<T>(s: seq<T>, x: T)
    requires x in s
    ensures multiset(RemoveFirst(s, x)) == multiset(s) - multiset{x}
  {
    assert s == [s[0]] + s[1..];
    if s[0] != x { RemoveFirstMultiset(s[1..], x); }
  }

  /** The element removed is the one at `i` when nothing before `i` equals it. */
  lemma {:induction false} RemoveFirstAt<T>(s: seq<T>, i: nat)
    requires i < |s| && s[i] !in s[..i]
    ensures RemoveFirst(s, s[i]) == s[..i] + s[i + 1..]
  {
    if i > 0 {
      var tail, front := s[1..], s[..i];
      assert front[0] == s[0];
      assert tail[..i - 1] == front[1..];
      RemoveFirstAt(tail, i - 1);
      assert [s[0]] + tail[..i - 1] == front;
      assert tail[i..] == s[i + 1..];
    }
  }

  lemma Associative<T>(a: seq<T>, b: seq<T>, c: seq<T>)
    ensures (a + b) + c == a + (b + c)
  {
  }

  ghost predicate NoDuplicates<T>(s: seq<T>) {
    forall i, j :: 0 <= i < j < |s| ==> s[i] != s[j]
  }

  function Max(a: int, b: int): (m: int)
    ensures m >= a && m >= b && (m == a || m == b)
  {
    if a >= b then a else b
  }

  function Min(a: int, b: int): (m: int)
    ensures m <= a && m <= b && (m == a || m == b)
  {
    if a <= b then a else b
  }
}
