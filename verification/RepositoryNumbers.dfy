/** What the repository part of a number, dotted or grouped by three, tells of the prefixes in it. */
module RepositoryNumbers {
  import opened Collections
  import opened ReferenceFormatter
  import opened SeparatedTexts
  import G = GroupedFormatter

  /** What a formatter joins by dots. */
  function PrintedParts(f: Formatter, parts: seq<string>): seq<string> {
    if f.isGroupedByThree then Groups(parts) else parts
  }

  /** A repository number determines the pieces between its dots, and nothing more. */
  lemma RepositoryNumberExactly(f: Formatter, n: Numbers, n': Numbers)
    requires NoEmpty(Parts(n, "repository")) && NoEmpty(Parts(n', "repository"))
    ensures f.RepositoryNumber(n) == f.RepositoryNumber(n')
       <==> Pieces(PrintedParts(f, Parts(n, "repository"))) == Pieces(PrintedParts(f, Parts(n', "repository")))
  {
    GroupsNotEmpty(Parts(n, "repository"));
    GroupsNotEmpty(Parts(n', "repository"));
    JoinOfNoEmpty(PrintedParts(f, Parts(n, "repository")), PrintedParts(f, Parts(n', "repository")));
  }

  /** With any prefixes, dotted numbers are equal exactly when the prefixes have the same pieces between
      dots; without dots in them, exactly when they are the same prefixes. */
  lemma DottedRepositoryExactly(f: Formatter, n: Numbers, n': Numbers)
    requires !f.isGroupedByThree
    requires NoEmpty(Parts(n, "repository")) && NoEmpty(Parts(n', "repository"))
    ensures f.RepositoryNumber(n) == f.RepositoryNumber(n')
       <==> Pieces(Parts(n, "repository")) == Pieces(Parts(n', "repository"))
    ensures Dotless(Parts(n, "repository")) && Dotless(Parts(n', "repository")) ==>
      (f.RepositoryNumber(n) == f.RepositoryNumber(n') <==> Parts(n, "repository") == Parts(n', "repository"))
  {
    RepositoryNumberExactly(f, n, n');
    if Dotless(Parts(n, "repository")) && Dotless(Parts(n', "repository")) {
      PiecesOfDotless(Parts(n, "repository"));
      PiecesOfDotless(Parts(n', "repository"));
    }
  }

  /** The texts of the groups of three. */
  function Groups(parts: seq<string>): seq<string> { ConcatAll(Grouper(parts)) }

  lemma {:induction false} ConcatKeeps(parts: seq<string>, c: char)
    ensures AllWithout(parts, c) ==> G.Without(Concat(parts), c)
    ensures parts != [] && parts[0] != "" ==> Concat(parts) != ""
  {
    if parts != [] {
      ConcatKeeps(parts[1..], c);
      assert AllWithout(parts, c) ==> G.Without(parts[0], c) && AllWithout(parts[1..], c);
    }
  }

  lemma OneGroup(group: seq<string>)
    ensures ConcatAll([group]) == [Concat(group)]
  {
    assert [group][1..] == [] && ConcatAll([]) == [];
    assert [Concat(group)] + [] == [Concat(group)];
  }

  lemma {:induction false} GroupsKeep(parts: seq<string>, c: char)
    requires NoEmpty(parts)
    ensures NoEmpty(Groups(parts))
    ensures AllWithout(parts, c) ==> AllWithout(Groups(parts), c)
    decreases |parts|
  {
    if |parts| >= 3 {
      var group, rest := parts[..3], parts[3..];
      ConcatKeeps(group, c);
      GroupsKeep(rest, c);
      assert Grouper(parts)[0] == group && Grouper(parts)[1..] == Grouper(rest);
      assert Groups(parts) == [Concat(group)] + Groups(rest);
      assert AllWithout(parts, c) ==> AllWithout(group, c) && AllWithout(rest, c);
    } else if parts != [] {
      var group := Grouper(parts)[0];
      ConcatKeeps(group, c);
      assert Grouper(parts) == [group];
      OneGroup(group);
      assert AllWithout(parts, c) ==> AllWithout(group, c);
    }
  }

  /** The groups are of three parts each, from the front, and the last one is of what is left. */
  lemma {:induction false} GroupsAreOfThree(parts: seq<string>)
    ensures |Groups(parts)| == (|parts| + 2) / 3
    ensures forall k :: 0 <= k < |Groups(parts)| ==>
      Groups(parts)[k] == Concat(parts[3 * k..Min(3 * k + 3, |parts|)])
    decreases |parts|
  {
    if |parts| >= 3 {
      var rest := parts[3..];
      GroupsAreOfThree(rest);
      assert Grouper(parts)[1..] == Grouper(rest);
      assert Groups(parts) == [Concat(parts[..3])] + Groups(rest);
      forall k | 0 < k < |Groups(parts)|
        ensures Groups(parts)[k] == Concat(parts[3 * k..Min(3 * k + 3, |parts|)])
      {
        var from, to := 3 * (k - 1), Min(3 * (k - 1) + 3, |rest|);
        assert Groups(parts)[k] == Groups(rest)[k - 1];
        assert rest[from..to] == parts[3 * k..Min(3 * k + 3, |parts|)];
      }
    } else if parts != [] {
      var filler := seq(3 - |parts|, _ => "");
      assert Grouper(parts) == [parts + filler];
      OneGroup(parts + filler);
      G.ConcatSplits(parts, filler);
      G.ConcatFiller(filler);
      assert parts[..|parts|] == parts && Concat(parts) + "" == Concat(parts);
    }
  }

  /** So a grouped number is any list of texts that are these groups, joined by dots. */
  lemma GroupedNumberIs(f: Formatter, n: Numbers, groups: seq<string>)
    requires f.isGroupedByThree && |groups| == (|Parts(n, "repository")| + 2) / 3
    requires forall k :: 0 <= k < |groups| ==>
      groups[k] == Concat(Parts(n, "repository")[3 * k..Min(3 * k + 3, |Parts(n, "repository")|)])
    ensures f.RepositoryNumber(n) == Join(groups, ".")
  {
    GroupsAreOfThree(Parts(n, "repository"));
    assert groups == Groups(Parts(n, "repository"));
  }

  lemma GroupsNotEmpty(parts: seq<string>)
    requires NoEmpty(parts)
    ensures NoEmpty(Groups(parts))
  {
    GroupsKeep(parts, '.');
  }

  /** Grouped by three, prefixes print alike exactly when their groups have the same pieces between dots;
      without dots in them, exactly when they have the same groups. */
  lemma GroupedRepositoryExactly(p: seq<string>, q: seq<string>)
    requires NoEmpty(p) && NoEmpty(q)
    ensures Join(Groups(p), ".") == Join(Groups(q), ".") <==> Pieces(Groups(p)) == Pieces(Groups(q))
    ensures Dotless(p) && Dotless(q) ==> (Join(Groups(p), ".") == Join(Groups(q), ".") <==> Groups(p) == Groups(q))
  {
    GroupsKeep(p, '.');
    GroupsKeep(q, '.');
    JoinOfNoEmpty(Groups(p), Groups(q));
    if Dotless(p) && Dotless(q) {
      PiecesOfDotless(Groups(p));
      PiecesOfDotless(Groups(q));
    }
  }

  // ----- prefixes of equal width -----

  /** On every level both numbers have, the parts are equally long. */
  predicate SameWidths(a: seq<string>, b: seq<string>) {
    forall i :: 0 <= i < |a| && i < |b| ==> |a[i]| == |b[i]|
  }

  lemma {:induction false} ConcatOfSameWidths(a: seq<string>, b: seq<string>)
    requires NoEmpty(a) && NoEmpty(b) && SameWidths(a, b) && Concat(a) == Concat(b)
    ensures a == b
  {
    assert a != [] ==> |Concat(a)| >= |a[0]| > 0;
    assert b != [] ==> |Concat(b)| >= |b[0]| > 0;
    if a != [] && b != [] {
      AppendInjective(a[0], Concat(a[1..]), b[0], Concat(b[1..]));
      ConcatOfSameWidths(a[1..], b[1..]);
      assert a == [a[0]] + a[1..] && b == [b[0]] + b[1..];
    }
  }

  /** With equal widths on each level, such as zero-padded prefixes, grouping loses nothing. */
  lemma SameWidthsDetermine(p: seq<string>, q: seq<string>)
    requires Dotless(p) && Dotless(q) && SameWidths(p, q)
    ensures Groups(p) == Groups(q) <==> p == q
  {
    if Groups(p) == Groups(q) {
      G.GroupingKeepsText(p);
      G.GroupingKeepsText(q);
      ConcatOfSameWidths(p, q);
    }
  }
}
