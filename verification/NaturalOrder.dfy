/** The order in which prefixes are sorted: text and number chunks, compared one by one. */
module NaturalOrder {
  import opened Collections
  import opened StableSorting
  import opened Decimals

  // ----- lexicographic orders -----

  ghost predicate StrictTotalOrder<T(!new)>(less: (T, T) -> bool) {
    && (forall x :: !less(x, x))
    && (forall x, y :: x != y ==> less(x, y) || less(y, x))
    && (forall x, y, z :: less(x, y) && less(y, z) ==> less(x, z))
  }

  predicate LexLeq<T(==)>(a: seq<T>, b: seq<T>, less: (T, T) -> bool) {
    if a == [] then true
    else if b == [] then false
    else if a[0] == b[0] then LexLeq(a[1..], b[1..], less)
    else less(a[0], b[0])
  }

  lemma {:induction false} LexTotal<T(!new)>(a: seq<T>, b: seq<T>, less: (T, T) -> bool)
    requires StrictTotalOrder(less)
    ensures LexLeq(a, b, less) || LexLeq(b, a, less)
    ensures LexLeq(a, b, less) && LexLeq(b, a, less) ==> a == b
  {
    if a != [] && b != [] && a[0] == b[0] {
      LexTotal(a[1..], b[1..], less);
      assert a == [a[0]] + a[1..] && b == [b[0]] + b[1..];
    }
  }

  lemma {:induction false} LexTransitive<T(!new)>(a: seq<T>, b: seq<T>, c: seq<T>, less: (T, T) -> bool)
    requires StrictTotalOrder(less)
    requires LexLeq(a, b, less) && LexLeq(b, c, less)
    ensures LexLeq(a, c, less)
  {
    if a != [] && b != [] && c != [] && a[0] == b[0] == c[0] {
      LexTransitive(a[1..], b[1..], c[1..], less);
    }
  }

  predicate CharLess(a: char, b: char) { a < b }

  predicate TextLeq(a: string, b: string) { LexLeq(a, b, CharLess) }

  // ----- chunks -----

  datatype Chunk = Text(text: string) | Number(value: nat)

  /** Python 2 puts every number before every string. */
  predicate ChunkLess(a: Chunk, b: Chunk) {
    match (a, b)
    case (Number(m), Number(n)) => m < n
    case (Number(_), Text(_)) => true
    case (Text(_), Number(_)) => false
    case (Text(s), Text(t)) => s != t && TextLeq(s, t)
  }

  lemma ChunkOrder()
    ensures StrictTotalOrder(ChunkLess)
  {
    assert StrictTotalOrder(CharLess);
    forall x, y | x != y ensures ChunkLess(x, y) || ChunkLess(y, x) {
      if x.Text? && y.Text? { LexTotal(x.text, y.text, CharLess); }
    }
    forall x, y, z | ChunkLess(x, y) && ChunkLess(y, z) ensures ChunkLess(x, z) {
      if x.Text? && y.Text? && z.Text? {
        LexTransitive(x.text, y.text, z.text, CharLess);
        if x.text == z.text { LexTotal(x.text, y.text, CharLess); }
      }
    }
  }

  /** The length of the leading text, up to the first digit. */
  function TextLength(s: string): (n: nat)
    ensures n <= |s| && (forall k :: 0 <= k < n ==> !IsDigit(s[k])) && (n < |s| ==> IsDigit(s[n]))
  {
    if s == [] || IsDigit(s[0]) then 0 else 1 + TextLength(s[1..])
  }

  /** The length of the leading run of digits. */
  function DigitLength(s: string): (n: nat)
    ensures n <= |s| && AllDigits(s[..n]) && (n < |s| ==> !IsDigit(s[n]))
  {
    if s == [] || !IsDigit(s[0]) then 0
    else
      var n := DigitLength(s[1..]);
      assert forall k :: 0 < k <= n ==> s[k] == s[1..][..n][k - 1];
      1 + n
  }

  /** `split_string_by_numbers`: texts and numbers alternate, starting and ending with a text. */
  function Chunks(s: string): (r: seq<Chunk>)
    ensures r != [] && r[0] == Text(s[..TextLength(s)])
    decreases |s|
  {
    var t := TextLength(s);
    if t == |s| then
      assert s[..t] == s;
      [Text(s)]
    else
      var d := DigitLength(s[t..]);
      [Text(s[..t]), Number(ValueOf(s[t..][..d]))] + Chunks(s[t..][d..])
  }

  predicate NaturalLeq(a: string, b: string) {
    LexLeq(Chunks(a), Chunks(b), ChunkLess)
  }

  /** Strictly greater in the natural order. */
  predicate Exceeds(a: string, b: string) {
    !NaturalLeq(a, b)
  }

  lemma NaturalOrderTotal()
    ensures TotalPreorder(NaturalLeq)
  {
    ChunkOrder();
    forall x, y ensures NaturalLeq(x, y) || NaturalLeq(y, x) { LexTotal(Chunks(x), Chunks(y), ChunkLess); }
    forall x, y, z | NaturalLeq(x, y) && NaturalLeq(y, z) ensures NaturalLeq(x, z) {
      LexTransitive(Chunks(x), Chunks(y), Chunks(z), ChunkLess);
    }
  }

  lemma {:induction false} LexCommonPrefix<T(!new)>(p: seq<T>, a: seq<T>, b: seq<T>, less: (T, T) -> bool)
    ensures LexLeq(p + a, p + b, less) <==> LexLeq(a, b, less)
  {
    if p == [] {
      assert p + a == a && p + b == b;
    } else {
      assert (p + a)[1..] == p[1..] + a && (p + b)[1..] == p[1..] + b;
      LexCommonPrefix(p[1..], a, b, less);
    }
  }

  /** A run of digits between a text that does not end in a digit and one that does not start with
      one is a chunk of its own. */
  lemma {:induction false} ChunksAround(a: string, d: string, b: string)
    requires a == [] || !IsDigit(a[|a| - 1])
    requires d != [] && AllDigits(d) && (b == [] || !IsDigit(b[0]))
    ensures Chunks(a + d + b) == Chunks(a) + [Number(ValueOf(d))] + Chunks(b)
    decreases |a|
  {
    var n := TextLength(a);
    if n == |a| {
      ChunksAroundBase(a, d, b);
    } else {
      var text, run, rest := PeelOff(a);
      ChunksAround(rest, d, b);
      ChunksAroundStep(text, run, rest, d, b);
    }
  }

  lemma ChunksAroundStep(text: string, run: string, rest: string, d: string, b: string)
    requires forall k :: 0 <= k < |text| ==> !IsDigit(text[k])
    requires run != [] && AllDigits(run) && rest != [] && !IsDigit(rest[0]) && AllDigits(d)
    ensures Chunks(rest + d + b) == Chunks(rest) + [Number(ValueOf(d))] + Chunks(b) ==>
      Chunks((text + run + rest) + d + b) == Chunks(text + run + rest) + [Number(ValueOf(d))] + Chunks(b)
  {
    ChunksPeel(text, run, rest, d + b);
    Associative(text + run + rest, d, b);
    Associative(rest, d, b);
    var front := [Text(text), Number(ValueOf(run))];
    Associative(front, Chunks(rest), [Number(ValueOf(d))]);
    Associative(front, Chunks(rest) + [Number(ValueOf(d))], Chunks(b));
  }

  lemma ChunksAroundBase(a: string, d: string, b: string)
    requires TextLength(a) == |a|
    requires d != [] && AllDigits(d) && (b == [] || !IsDigit(b[0]))
    ensures Chunks(a + d + b) == Chunks(a) + [Number(ValueOf(d))] + Chunks(b)
  {
    ChunksOfTextNumber(a, d, b);
    assert Chunks(a) == [Text(a)];
    assert [Text(a)] + [Number(ValueOf(d))] == [Text(a), Number(ValueOf(d))];
  }

  /** A text with a digit that does not end in one: leading text, run of digits, and the rest. */
  lemma PeelOff(a: string) returns (text: string, run: string, rest: string)
    requires a != [] && !IsDigit(a[|a| - 1]) && TextLength(a) < |a|
    ensures a == text + run + rest
    ensures forall k :: 0 <= k < |text| ==> !IsDigit(text[k])
    ensures run != [] && AllDigits(run) && rest != [] && !IsDigit(rest[0]) && rest[|rest| - 1] == a[|a| - 1]
  {
    var n := TextLength(a);
    var m := DigitLength(a[n..]);
    text, run, rest := a[..n], a[n..][..m], a[n..][m..];
    assert a[n..][0] == a[n];
    assert a[n..][|a| - n - 1] == a[|a| - 1];
    assert m > 0 && run[m - 1] == a[n + m - 1];
  }

  lemma ChunksPeel(text: string, run: string, rest: string, tail: string)
    requires forall k :: 0 <= k < |text| ==> !IsDigit(text[k])
    requires run != [] && AllDigits(run) && rest != [] && !IsDigit(rest[0])
    ensures Chunks((text + run + rest) + tail) == [Text(text), Number(ValueOf(run))] + Chunks(rest + tail)
    ensures Chunks(text + run + rest) == [Text(text), Number(ValueOf(run))] + Chunks(rest)
  {
    ChunksOfTextNumber(text, run, rest);
    var longer := rest + tail;
    assert longer[0] == rest[0];
    ChunksOfTextNumber(text, run, longer);
    Associative(text + run, rest, tail);
  }

  lemma ChunksOfTextNumber(a: string, d: string, b: string)
    requires forall k :: 0 <= k < |a| ==> !IsDigit(a[k])
    requires d != [] && AllDigits(d) && (b == [] || !IsDigit(b[0]))
    ensures Chunks(a + d + b) == [Text(a), Number(ValueOf(d))] + Chunks(b)
  {
    var s := a + d + b;
    assert s[|a|] == d[0];
    assert forall k :: 0 <= k < |a| ==> s[k] == a[k];
    assert TextLength(s) == |a|;
    assert s[..|a|] == a && s[|a|..] == d + b;
    DigitLengthIs(d, b);
    assert (d + b)[..|d|] == d && (d + b)[|d|..] == b;
  }

  lemma {:induction false} DigitLengthIs(d: string, b: string)
    requires AllDigits(d) && (b == [] || !IsDigit(b[0]))
    ensures DigitLength(d + b) == |d|
  {
    if d == [] {
      assert d + b == b;
    } else {
      assert (d + b)[1..] == d[1..] + b;
      DigitLengthIs(d[1..], b);
    }
  }
}
