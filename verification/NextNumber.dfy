/** Deriving the next prefix from the greatest one in use. */
module NextNumber {
  import opened Collections
  import opened StableSorting
  import opened Decimals
  import opened NaturalOrder

  predicate HasDigit(s: string) { exists k :: 0 <= k < |s| && IsDigit(s[k]) }

  /** The end of the last run of digits; 0 when there is none. */
  function LastDigitEnd(s: string): (e: nat)
    ensures e <= |s| && (forall k :: e <= k < |s| ==> !IsDigit(s[k])) && (e > 0 ==> IsDigit(s[e - 1]))
  {
    if s == [] then 0 else if IsDigit(s[|s| - 1]) then |s| else LastDigitEnd(s[..|s| - 1])
  }

  /** The start of the run of digits that ends at `e`. */
  function RunStart(s: string, e: nat): (b: nat)
    requires e <= |s|
    ensures b <= e && (forall k :: b <= k < e ==> IsDigit(s[k])) && (b > 0 ==> !IsDigit(s[b - 1]))
    ensures e > 0 && IsDigit(s[e - 1]) ==> b < e
  {
    if e == 0 || !IsDigit(s[e - 1]) then if e == 0 then 0 else e else RunStart(s, e - 1)
  }

  /** The successor of the greatest prefix: a whole number grows by one, otherwise its last run of
      digits does; without any digit there is no successor and the result is empty. */
  function Successor(last: string): string {
    match ParseInt(last)
    case Some(n) => DecimalInt(n + 1)
    case None => NextText(last)
  }

  function NextText(last: string): string {
    var e := LastDigitEnd(last);
    if e == 0 then ""
    else
      var b := RunStart(last, e);
      WithNextRun(last[..b], last[b..e], last[e..])
  }

  function WithNextRun(front: string, run: string, back: string): string
    requires AllDigits(run)
  {
    front + Decimal(ValueOf(run) + 1) + back
  }

  /** The search behind `Successor` for the last run of digits, `last[b..e]`. */
  method FindLastRun(last: string) returns (b: nat, e: nat)
    ensures e == LastDigitEnd(last) && b == RunStart(last, e)
  {
    e := |last|;
    assert last[..e] == last;
    while e > 0 && !IsDigit(last[e - 1])
      invariant 0 <= e <= |last|
      invariant LastDigitEnd(last[..e]) == LastDigitEnd(last)
    {
      assert last[..e][..e - 1] == last[..e - 1];
      e := e - 1;
    }
    b := e;
    while b > 0 && IsDigit(last[b - 1])
      invariant 0 <= b <= e
      invariant RunStart(last, b) == RunStart(last, e)
    {
      b := b - 1;
    }
  }

  method ComputeSuccessor(last: string) returns (number: string)
    ensures number == Successor(last)
  {
    match ParseInt(last) {
      case Some(n) => return DecimalInt(n + 1);
      case None =>
    }
    var b, e := FindLastRun(last);
    if e == 0 {
      return "";
    }
    number := WithNextRun(last[..b], last[b..e], last[e..]);
  }

  // ----- when the successor is greater -----

  lemma DifferentHeads(a: string, b: string)
    requires Chunks(a)[0] != Chunks(b)[0]
    ensures Exceeds(a, b) <==> ChunkLess(Chunks(b)[0], Chunks(a)[0])
  {
    ChunkOrder();
  }

  lemma NumberDecides(front: seq<Chunk>, m: nat, n: nat, back: seq<Chunk>, back': seq<Chunk>)
    requires m > n
    ensures !LexLeq(front + [Number(m)] + back, front + [Number(n)] + back', ChunkLess)
  {
    var x, y := [Number(m)] + back, [Number(n)] + back';
    assert front + [Number(m)] + back == front + x && front + [Number(n)] + back' == front + y;
    LexCommonPrefix(front, x, y, ChunkLess);
  }

  /** Behind a common text the greater run of digits decides. */
  lemma RunDecides(a: string, b: string, front: string, d: string, d': string, back: string, back': string)
    requires a == front + d + back && b == front + d' + back'
    requires front == [] || !IsDigit(front[|front| - 1])
    requires d != [] && AllDigits(d) && (back == [] || !IsDigit(back[0]))
    requires d' != [] && AllDigits(d') && (back' == [] || !IsDigit(back'[0]))
    requires ValueOf(d) > ValueOf(d')
    ensures Exceeds(a, b)
  {
    ChunksAround(front, d, back);
    ChunksAround(front, d', back');
    NumberDecides(Chunks(front), ValueOf(d), ValueOf(d'), Chunks(back), Chunks(back'));
  }

  /** Text, last run of digits, and the text behind it. */
  lemma MixedShape(last: string) returns (front: string, run: string, back: string)
    requires ParseInt(last) == None && HasDigit(last)
    ensures front == [] || !IsDigit(front[|front| - 1])
    ensures run != [] && AllDigits(run) && (back == [] || !IsDigit(back[0]))
    ensures last == front + run + back
    ensures Successor(last) == WithNextRun(front, run, back)
  {
    front, run, back := LastRun(last);
    var e := LastDigitEnd(last);
    var b := RunStart(last, e);
    assert last[b..e] == run && last[..b] == front && last[e..] == back;
  }

  lemma LastRun(last: string) returns (front: string, run: string, back: string)
    requires HasDigit(last)
    ensures var e := LastDigitEnd(last); var b := RunStart(last, e);
      e > 0 && front == last[..b] && run == last[b..e] && back == last[e..]
    ensures front == [] || !IsDigit(front[|front| - 1])
    ensures run != [] && AllDigits(run) && (back == [] || !IsDigit(back[0]))
    ensures last == front + run + back
  {
    var e := LastDigitEnd(last);
    var k :| 0 <= k < |last| && IsDigit(last[k]);
    assert k < e;
    var b := RunStart(last, e);
    front, run, back := last[..b], last[b..e], last[e..];
    forall i | 0 <= i < |run| ensures IsDigit(run[i]) { assert run[i] == last[b + i]; }
  }

  lemma LastRunIs(front: string, run: string, back: string)
    requires front == "" || !IsDigit(front[|front| - 1])
    requires run != "" && AllDigits(run) && forall k :: 0 <= k < |back| ==> !IsDigit(back[k])
    ensures var last := front + run + back;
      LastDigitEnd(last) == |front| + |run| && RunStart(last, |front| + |run|) == |front|
  {
    var last, middle := front + run + back, |front| + |run|;
    assert forall k :: middle <= k < |last| ==> last[k] == back[k - middle];
    assert forall k :: |front| <= k < middle ==> last[k] == run[k - |front|];
    assert front != "" ==> last[|front| - 1] == front[|front| - 1];
    assert IsDigit(last[middle - 1]);
    EndIs(last, middle);
    StartIs(last, |front|, middle);
  }

  lemma EndIs(s: string, e: nat)
    requires 0 < e <= |s| && IsDigit(s[e - 1]) && forall k :: e <= k < |s| ==> !IsDigit(s[k])
    ensures LastDigitEnd(s) == e
  {
  }

  lemma StartIs(s: string, b: nat, e: nat)
    requires b < e <= |s| && (forall k :: b <= k < e ==> IsDigit(s[k])) && (b > 0 ==> !IsDigit(s[b - 1]))
    ensures RunStart(s, e) == b
  {
  }

  lemma NextTextIs(last: string, b: nat, e: nat, front: string, run: string, back: string)
    requires e == LastDigitEnd(last) && e > 0 && b == RunStart(last, e)
    requires last[..b] == front && last[b..e] == run && last[e..] == back
    ensures NextText(last) == front + Decimal(ValueOf(run) + 1) + back
  {
  }

  /** The text around the last run of digits stays, and the run counts on by one. */
  lemma SuccessorOfRun(last: string, front: string, run: string, back: string)
    requires last == front + run + back && ParseInt(last) == None
    requires front == "" || !IsDigit(front[|front| - 1])
    requires run != "" && AllDigits(run) && forall k :: 0 <= k < |back| ==> !IsDigit(back[k])
    ensures Successor(last) == front + Decimal(ValueOf(run) + 1) + back
  {
    LastRunIs(front, run, back);
    NextTextIs(last, |front|, |front| + |run|, front, run, back);
  }

  /** A whole number counts on by one. */
  lemma SuccessorOfWhole(last: string)
    requires ParseInt(last).Some?
    ensures ParseInt(Successor(last)) == Some(ParseInt(last).value + 1)
  {
    ParseDecimalInt(ParseInt(last).value + 1);
  }

  lemma SuccessorOfMixed(last: string)
    requires ParseInt(last) == None && HasDigit(last)
    ensures Exceeds(Successor(last), last)
  {
    var front, run, back := MixedShape(last);
    var next := Decimal(ValueOf(run) + 1);
    assert WithNextRun(front, run, back) == front + next + back;
    ValueOfDecimal(ValueOf(run) + 1);
    RunDecides(Successor(last), last, front, next, run, back, back);
  }

  /** A whole number written with digits first, possibly followed by blanks. */
  lemma LeadingDigits(last: string) returns (run: string, back: string)
    requires last != [] && IsDigit(last[0]) && ParseInt(last).Some?
    ensures run != [] && AllDigits(run) && (back == [] || !IsDigit(back[0]))
    ensures last == [] + run + back
    ensures Successor(last) == [] + Decimal(ValueOf(run) + 1) + []
  {
    run := Strip(last);
    back := last[|run|..];
    assert back != [] ==> back[0] == last[|run|] && IsSpace(back[0]);
  }

  lemma SuccessorOfLeadingDigits(last: string)
    requires last != [] && IsDigit(last[0]) && ParseInt(last).Some?
    ensures Exceeds(Successor(last), last)
  {
    var run, back := LeadingDigits(last);
    var next := Decimal(ValueOf(run) + 1);
    ValueOfDecimal(ValueOf(run) + 1);
    RunDecides(Successor(last), last, [], next, run, [], back);
  }

  /** A whole number with blanks or a sign in front is followed by a number without them. */
  lemma SuccessorOfDecorated(last: string)
    requires last != [] && !IsDigit(last[0]) && ParseInt(last).Some?
    ensures Exceeds(Successor(last), last) <==> IsSpace(last[0]) && ParseInt(last).value <= -2
  {
    var v := ParseInt(last).value;
    var next := Successor(last);
    var text := last[..TextLength(last)];
    assert TextLength(last) > 0 && text[0] == last[0];
    assert Chunks(last)[0] == Text(text);
    if v + 1 >= 0 {
      assert TextLength(next) == 0 && Chunks(next)[0] == Text("");
      DifferentHeads(next, last);
    } else {
      var d := Decimal(-(v + 1));
      ChunksOfTextNumber(['-'], d, []);
      assert next == ['-'] + d + [];
      assert Chunks(next)[0] == Text("-");
      if last[0] == '-' {
        SuccessorOfNegative(last);
      } else {
        assert text != "-" && last[0] < '-';
        DifferentHeads(next, last);
      }
    }
  }

  lemma SuccessorOfNegative(last: string)
    requires last != [] && last[0] == '-' && ParseInt(last).Some? && ParseInt(last).value <= -2
    ensures !Exceeds(Successor(last), last)
  {
    var v := ParseInt(last).value;
    var t := Strip(last);
    assert LStrip(last) == last && t <= last;
    var d, back := t[1..], last[|t|..];
    assert last == ['-'] + d + back;
    assert back != [] ==> back[0] == last[|t|];
    var k: nat := -(v + 1);
    assert Successor(last) == ['-'] + Decimal(k) + [];
    ValueOfDecimal(k);
    RunDecides(last, Successor(last), ['-'], d, Decimal(k), back, []);
    NaturalOrderTotal();
    assert NaturalLeq(last, Successor(last)) || NaturalLeq(Successor(last), last);
  }

  /** The guard under which numbering goes upwards. */
  predicate Continuable(last: string) {
    && HasDigit(last)
    && (ParseInt(last).Some? ==>
        IsDigit(last[0]) || (IsSpace(last[0]) && ParseInt(last).value <= -2))
  }

  lemma SuccessorExceedsExactly(last: string)
    ensures Exceeds(Successor(last), last) <==> Continuable(last)
  {
    if ParseInt(last).Some? {
      ParsedHasDigit(last);
      if IsDigit(last[0]) { SuccessorOfLeadingDigits(last); } else { SuccessorOfDecorated(last); }
    } else if HasDigit(last) {
      SuccessorOfMixed(last);
    } else {
      var e := LastDigitEnd(last);
      assert e == 0;
      assert Chunks("") == [Text("")];
      var n := TextLength(last);
      if n == 0 { assert last == ""; }
      ChunkOrder();
      LexTotal(Chunks(""), Chunks(last), ChunkLess);
      if last != "" {
        assert Chunks(last)[0] == Text(last[..n]) && last[..n] != "";
        DifferentHeads("", last);
      }
    }
  }

  lemma {:induction false} StripWithin(s: string, c: char)
    ensures c in Strip(s) ==> c in s
  {
    LStripWithin(s, c);
  }

  lemma {:induction false} LStripWithin(s: string, c: char)
    ensures c in LStrip(s) ==> c in s
  {
    if s != [] && IsSpace(s[0]) { LStripWithin(s[1..], c); }
  }

  lemma ParsedHasDigit(last: string)
    requires ParseInt(last).Some?
    ensures last != [] && HasDigit(last)
  {
    var t := Strip(last);
    var c := t[|t| - 1];
    assert IsDigit(c);
    StripWithin(last, c);
    var k :| 0 <= k < |last| && last[k] == c;
  }

  // ----- among all prefixes in use -----

  /** The prefix the source takes as the greatest: the last one after sorting. */
  function Greatest(used: seq<string>): string
    requires used != []
  {
    SortLength(used, NaturalLeq);
    var sorted := StableSort(used, NaturalLeq);
    sorted[|sorted| - 1]
  }

  lemma {:induction false} SortLength<T>(s: seq<T>, le: (T, T) -> bool)
    ensures |StableSort(s, le)| == |s|
  {
    if s != [] {
      SortLength(s[1..], le);
      InsertLength(s[0], StableSort(s[1..], le), le);
    }
  }

  lemma {:induction false} InsertLength<T>(x: T, s: seq<T>, le: (T, T) -> bool)
    ensures |Insert(x, s, le)| == |s| + 1
  {
    if s != [] && !le(x, s[0]) { InsertLength(x, s[1..], le); }
  }

  lemma GreatestIsMaximal(used: seq<string>)
    requires used != []
    ensures Greatest(used) in used
    ensures forall p :: p in used ==> NaturalLeq(p, Greatest(used))
  {
    NaturalOrderTotal();
    StableSortCorrect(used, NaturalLeq);
    var sorted := StableSort(used, NaturalLeq);
    SortLength(used, NaturalLeq);
    assert sorted[|sorted| - 1] in multiset(sorted);
    forall p | p in used ensures NaturalLeq(p, Greatest(used)) {
      assert p in multiset(sorted);
      var i :| 0 <= i < |sorted| && sorted[i] == p;
    }
  }

  /** The successor exceeds every prefix in use, and so is not in use, exactly when the greatest prefix
      can be continued. */
  lemma SuccessorIsFreshExactly(used: seq<string>)
    requires used != []
    ensures (forall p :: p in used ==> Exceeds(Successor(Greatest(used)), p)) <==> Continuable(Greatest(used))
    ensures Continuable(Greatest(used)) ==> Successor(Greatest(used)) !in used
  {
    var last := Greatest(used);
    GreatestIsMaximal(used);
    SuccessorExceedsExactly(last);
    NaturalOrderTotal();
    if Continuable(last) {
      forall p | p in used ensures Exceeds(Successor(last), p) {
        assert NaturalLeq(p, last);
      }
      assert NaturalLeq(Successor(last), Successor(last));
    }
  }

  /** A signed prefix is counted towards zero: with "-3" and "-2" in use the proposal is "-2" again. */
  lemma SignedPrefixCollides()
    ensures Greatest(["-2", "-3"]) == "-3"
    ensures Successor(Greatest(["-2", "-3"])) in ["-2", "-3"]
  {
    var used := ["-2", "-3"];
    assert Strip("-3") == "-3" && "-3"[1..] == "3";
    assert ValueOf("3") == 3 by { assert "3"[..0] == ""; }
    assert ValueOf("2") == 2 by { assert "2"[..0] == ""; }
    assert Decimal(2) == "2";
    assert Successor("-3") == "-2";
    RunDecides("-3", "-2", "-", "3", "2", "", "");
    GreatestIsMaximal(used);
    assert used[1] == "-3" && "-3" in used;
  }
}
