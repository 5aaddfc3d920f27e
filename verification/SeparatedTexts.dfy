/** Texts put together with a marker between them can be taken apart again. */
module SeparatedTexts {
  import opened ReferenceFormatter
  import G = GroupedFormatter

  function Tail(pad: string, c: char, items: seq<string>): string {
    if items == [] then "" else pad + [c] + pad + items[0] + Tail(pad, c, items[1..])
  }

  predicate NoEmpty(parts: seq<string>) { forall k :: 0 <= k < |parts| ==> parts[k] != "" }

  lemma AppendInjective<T>(a: seq<T>, x: seq<T>, b: seq<T>, y: seq<T>)
    requires a + x == b + y && |a| == |b|
    ensures a == b && x == y
  {
    assert a == (a + x)[..|a|] && b == (b + y)[..|b|];
    assert x == (a + x)[|a|..] && y == (b + y)[|b|..];
  }

  predicate AllWithout(items: seq<string>, c: char) {
    forall k :: 0 <= k < |items| ==> G.Without(items[k], c)
  }

  lemma TailShape(s: string, pad: string, c: char, items: seq<string>)
    requires items != []
    ensures s + Tail(pad, c, items) == (s + pad) + [c] + ((pad + items[0]) + Tail(pad, c, items[1..]))
  {
  }

  lemma {:induction false} TailInjective(s: string, items: seq<string>, s': string, items': seq<string>,
                                       pad: string, c: char)
    requires G.Without(pad, c) && G.Without(s, c) && G.Without(s', c)
    requires AllWithout(items, c) && AllWithout(items', c)
    requires s + Tail(pad, c, items) == s' + Tail(pad, c, items')
    ensures s == s' && items == items'
    decreases |items|
  {
    if items == [] || items' == [] {
      NothingBehind(s, items, s', items', pad, c);
    } else {
      var next, next' := pad + items[0], pad + items'[0];
      var rest, rest' := next + Tail(pad, c, items[1..]), next' + Tail(pad, c, items'[1..]);
      TailShape(s, pad, c, items);
      TailShape(s', pad, c, items');
      FirstMarker(s + pad, c, rest, s' + pad, rest');
      AppendInjective(s, pad, s', pad);
      assert AllWithout(items[1..], c) && AllWithout(items'[1..], c);
      TailInjective(next, items[1..], next', items'[1..], pad, c);
      AppendInjective(pad, items[0], pad, items'[0]);
      assert items == [items[0]] + items[1..] && items' == [items'[0]] + items'[1..];
    }
  }

  lemma FirstMarker(a: string, c: char, b: string, a': string, b': string)
    requires G.Without(a, c) && G.Without(a', c) && a + [c] + b == a' + [c] + b'
    ensures a == a' && b == b'
  {
    G.FindBehind(a, c, b);
    G.FindBehind(a', c, b');
  }

  lemma NothingBehind(s: string, items: seq<string>, s': string, items': seq<string>, pad: string, c: char)
    requires G.Without(pad, c) && G.Without(s, c) && G.Without(s', c) && (items == [] || items' == [])
    requires s + Tail(pad, c, items) == s' + Tail(pad, c, items')
    ensures s == s' && items == items'
  {
    G.FindNowhere(s, c);
    G.FindNowhere(s', c);
    assert s + "" == s && s' + "" == s';
    if items != [] {
      TailShape(s, pad, c, items);
      G.FindBehind(s + pad, c, (pad + items[0]) + Tail(pad, c, items[1..]));
    }
    if items' != [] {
      TailShape(s', pad, c, items');
      G.FindBehind(s' + pad, c, (pad + items'[0]) + Tail(pad, c, items'[1..]));
    }
  }

  // ----- parts joined by dots -----

  /** Splits at every dot. */
  function DotSplit(s: string): (r: seq<string>)
    ensures r != []
  {
    if s == "" then [""]
    else
      var rest := DotSplit(s[1..]);
      if s[0] == '.' then [""] + rest else [[s[0]] + rest[0]] + rest[1..]
  }

  /** What is between the dots when the parts are joined. */
  function Pieces(parts: seq<string>): (r: seq<string>)
    ensures r == [] <==> parts == []
  {
    if parts == [] then [] else DotSplit(parts[0]) + Pieces(parts[1..])
  }

  lemma {:induction false} DotSplitBetween(a: string, b: string)
    ensures DotSplit(a + "." + b) == DotSplit(a) + DotSplit(b)
  {
    var s := a + "." + b;
    if a == "" {
      assert s[1..] == b;
    } else {
      assert s[1..] == a[1..] + "." + b;
      DotSplitBetween(a[1..], b);
    }
  }

  lemma {:induction false} SplitOfJoin(parts: seq<string>)
    requires parts != []
    ensures DotSplit(Join(parts, ".")) == Pieces(parts)
  {
    if |parts| == 1 {
      assert Pieces(parts[1..]) == [];
      assert DotSplit(parts[0]) + [] == DotSplit(parts[0]);
    } else {
      SplitOfJoin(parts[1..]);
      DotSplitBetween(parts[0], Join(parts[1..], "."));
    }
  }

  lemma {:induction false} JoinOfSplit(s: string)
    ensures Join(DotSplit(s), ".") == s
  {
    if s != "" {
      JoinOfSplit(s[1..]);
      var rest := DotSplit(s[1..]);
      if s[0] == '.' {
        assert ([""] + rest)[1..] == rest;
        assert "" + "." + s[1..] == s;
      }
    }
  }

  /** The joined text tells the pieces of the parts, and nothing more. */
  lemma JoinEqualExactly(a: seq<string>, b: seq<string>)
    requires a != [] && b != []
    ensures Join(a, ".") == Join(b, ".") <==> Pieces(a) == Pieces(b)
  {
    SplitOfJoin(a);
    SplitOfJoin(b);
    JoinOfSplit(Join(a, "."));
    JoinOfSplit(Join(b, "."));
  }

  lemma JoinOfNoEmpty(a: seq<string>, b: seq<string>)
    requires NoEmpty(a) && NoEmpty(b)
    ensures Join(a, ".") == Join(b, ".") <==> Pieces(a) == Pieces(b)
  {
    if a != [] && b != [] { JoinEqualExactly(a, b); }
  }

  lemma {:induction false} DotSplitWhole(s: string)
    requires G.Without(s, '.')
    ensures DotSplit(s) == [s]
  {
    if s != "" {
      DotSplitWhole(s[1..]);
      assert [s[0]] + s[1..] == s;
    }
  }

  lemma {:induction false} PiecesOfDotless(parts: seq<string>)
    requires AllWithout(parts, '.')
    ensures Pieces(parts) == parts
  {
    if parts != [] {
      DotSplitWhole(parts[0]);
      PiecesOfDotless(parts[1..]);
      assert parts == [parts[0]] + parts[1..];
    }
  }

  /** Non-empty parts without dots. */
  predicate Dotless(parts: seq<string>) { NoEmpty(parts) && AllWithout(parts, '.') }

  /** They can be read off the joined text. */
  lemma JoinInjective(a: seq<string>, b: seq<string>)
    requires Dotless(a) && Dotless(b) && Join(a, ".") == Join(b, ".")
    ensures a == b
  {
    JoinOfNoEmpty(a, b);
    PiecesOfDotless(a);
    PiecesOfDotless(b);
  }
}
