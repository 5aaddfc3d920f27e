/** The parsers of numbers grouped by three, and the order they give to dossiers and documents. */
module GroupedFormatter {
  import opened Collections
  import opened Decimals
  import N = NaturalOrder
  import opened ReferenceFormatter

  /** A sort key: the bare text of a repository folder, or a tuple whose last component is only there
      for documents; or the exception raised instead. */
  datatype SortKey =
    | Repository(text: string)
    | Tuple(repository: string, dossier: seq<int>, document: Option<int>)
    | IndexError
    | ValueError

  function Find(s: string, c: char): (i: nat)
    ensures i <= |s| && (i < |s| ==> s[i] == c) && forall k :: 0 <= k < i ==> s[k] != c
  {
    if s == "" || s[0] == c then 0 else 1 + Find(s[1..], c)
  }

  /** `int` of every part between dots. */
  function ParseDotted(s: string): Option<seq<int>>
    decreases |s|
  {
    var i := Find(s, '.');
    match ParseInt(s[..i])
    case None => None
    case Some(n) =>
      if i == |s| then Some([n])
      else
        match ParseDotted(s[i + 1..])
        case None => None
        case Some(rest) => Some([n] + rest)
  }

  /** The part of the parsers behind the client id. */
  function ParseRemainder(value: string): SortKey {
    var i := Find(value, '-');
    if i == |value| then Repository(value)
    else ParseBehind(value[..i], value[i + 1..])
  }

  function ParseBehind(repository: string, remainder: string): SortKey {
    var j := Find(remainder, '-');
    match ParseDotted(remainder[..j])
    case None => ValueError
    case Some(dossier) =>
      if j == |remainder| then Tuple(repository, dossier, None)
      else
        match ParseInt(remainder[j + 1..])
        case None => ValueError
        case Some(document) => Tuple(repository, dossier, Some(document))
  }

  function GroupedSortKey(f: Formatter, value: string): SortKey {
    if !f.hasClientId then ParseRemainder(value)
    else
      var i := Find(value, ' ');
      if i == |value| then IndexError else ParseRemainder(value[i + 1..])
  }

  // ----- parsing what was printed -----

  predicate Without(s: string, c: char) { forall k :: 0 <= k < |s| ==> s[k] != c }

  lemma FindBehind(a: string, c: char, b: string)
    requires Without(a, c)
    ensures Find(a + [c] + b, c) == |a|
    ensures (a + [c] + b)[..|a|] == a && (a + [c] + b)[|a| + 1..] == b
  {
    var s := a + [c] + b;
    assert s[|a|] == c;
    assert forall k :: 0 <= k < |a| ==> s[k] == a[k];
  }

  lemma FindNowhere(a: string, c: char)
    requires Without(a, c)
    ensures Find(a, c) == |a| && a[..|a|] == a
  {
  }

  lemma DecimalWithout(n: nat, c: char)
    requires !IsDigit(c)
    ensures Without(Decimal(n), c)
  {
    var d := Decimal(n);
    forall k | 0 <= k < |d| ensures d[k] != c { assert IsDigit(d[k]); }
  }

  lemma ParseDottedStep(first: string, rest: string)
    requires Without(first, '.') && ParseInt(first).Some? && ParseDotted(rest).Some?
    ensures ParseDotted(first + ['.'] + rest) == Some([ParseInt(first).value] + ParseDotted(rest).value)
  {
    FindBehind(first, '.', rest);
  }

  lemma ParseDottedLast(first: string)
    requires Without(first, '.') && ParseInt(first).Some?
    ensures ParseDotted(first) == Some([ParseInt(first).value])
  {
    FindNowhere(first, '.');
  }

  lemma {:induction false} JoinWithout(parts: seq<string>, c: char)
    requires c != '.' && forall k :: 0 <= k < |parts| ==> Without(parts[k], c)
    ensures Without(Join(parts, "."), c)
  {
    if |parts| > 1 {
      JoinWithout(parts[1..], c);
    }
  }

  lemma DecimalParses(n: nat)
    ensures Without(Decimal(n), '.') && ParseInt(Decimal(n)) == Some(n)
    ensures ParseDotted(Decimal(n)) == Some([n as int])
  {
    ParseDecimal(n);
    DecimalWithout(n, '.');
    ParseDottedLast(Decimal(n));
  }

  lemma JoinedDecimalTexts(ns: seq<nat>)
    requires ns != []
    ensures Join(DecimalTexts(ns), ".")
         == if |ns| == 1 then Decimal(ns[0]) else Decimal(ns[0]) + ['.'] + Join(DecimalTexts(ns[1..]), ".")
  {
    assert DecimalTexts(ns)[1..] == DecimalTexts(ns[1..]);
  }

  lemma {:induction false} JoinedParses(ns: seq<nat>)
    requires ns != []
    ensures ParseDotted(Join(DecimalTexts(ns), ".")) == Some(ns)
  {
    DecimalParses(ns[0]);
    JoinedDecimalTexts(ns);
    if |ns| == 1 {
      assert ns == [ns[0]];
    } else {
      JoinedParses(ns[1..]);
      ParseDottedStep(Decimal(ns[0]), Join(DecimalTexts(ns[1..]), "."));
      assert [ns[0] as int] + ns[1..] == ns;
    }
  }

  lemma JoinedDecimals(ns: seq<nat>)
    requires ns != []
    ensures Without(Join(DecimalTexts(ns), "."), '-') && Join(DecimalTexts(ns), ".") != ""
    ensures ParseDotted(Join(DecimalTexts(ns), ".")) == Some(ns)
  {
    forall k | 0 <= k < |ns| ensures Without(DecimalTexts(ns)[k], '-') { DecimalWithout(ns[k], '-'); }
    JoinWithout(DecimalTexts(ns), '-');
    JoinedParses(ns);
  }

  function DocumentTail(document: Option<nat>): string {
    match document case Some(n) => "-" + Decimal(n) case None => ""
  }

  function AsInt(document: Option<nat>): Option<int> {
    match document case Some(n) => Some(n as int) case None => None
  }

  lemma ParsesBehind(repository: string, dossier: seq<nat>, document: Option<nat>)
    requires dossier != []
    ensures ParseBehind(repository, Join(DecimalTexts(dossier), ".") + DocumentTail(document))
         == Tuple(repository, dossier, AsInt(document))
  {
    var d := Join(DecimalTexts(dossier), ".");
    JoinedDecimals(dossier);
    match document {
      case None =>
        assert d + DocumentTail(document) == d;
        FindNowhere(d, '-');
      case Some(n) =>
        assert d + DocumentTail(document) == d + ['-'] + Decimal(n);
        FindBehind(d, '-', Decimal(n));
        ParseDecimal(n);
    }
  }

  /** Parsing a repository part followed by a dossier, and a document if there is one. */
  lemma ParsesRemainder(repository: string, dossier: seq<nat>, document: Option<nat>)
    requires Without(repository, '-') && dossier != []
    ensures ParseRemainder(repository + ['-'] + (Join(DecimalTexts(dossier), ".") + DocumentTail(document)))
         == Tuple(repository, dossier, AsInt(document))
  {
    var rest := Join(DecimalTexts(dossier), ".") + DocumentTail(document);
    FindBehind(repository, '-', rest);
    ParsesBehind(repository, dossier, document);
  }

  /** The number parts of a dossier, or of a document in it. */
  ghost predicate InDossier(numbers: Numbers, dossier: seq<nat>, document: Option<nat>) {
    && dossier != []
    && Parts(numbers, "location_prefix") == []
    && Parts(numbers, "dossier") == DecimalTexts(dossier)
    && Parts(numbers, "document") == if document.Some? then [Decimal(document.value)] else []
  }

  lemma PrintedShape(f: Formatter, numbers: Numbers, dossier: seq<nat>, document: Option<nat>)
    requires f.isGroupedByThree && InDossier(numbers, dossier, document)
    ensures f.Printed(numbers)
         == WithRepository(f.Base(numbers), f.RepositoryNumber(numbers))
            + (['-'] + (Join(DecimalTexts(dossier), ".") + DocumentTail(document)))
  {
    JoinedDecimals(dossier);
    var front, d := WithRepository(f.Base(numbers), f.RepositoryNumber(numbers)), Join(DecimalTexts(dossier), ".");
    assert f.DossierNumber(numbers) == d;
    assert f.DocumentNumber(numbers) == match document case Some(n) => Decimal(n) case None => "";
  }

  lemma SkipsClientId(site: string, rest: string)
    requires Without(site, ' ')
    ensures GroupedSortKey(GROUPED, site + [' '] + rest) == ParseRemainder(rest)
  {
    FindBehind(site, ' ', rest);
  }

  /** Parsing a printed number gives back the grouped repository part and the numbers behind it. The
      client id must not contain a blank, and the repository part must be there without a hyphen. */
  lemma SorterOfPrinted(f: Formatter, site: string, numbers: Numbers, dossier: seq<nat>, document: Option<nat>)
    requires f.isGroupedByThree && InDossier(numbers, dossier, document)
    requires f.hasClientId ==> Parts(numbers, "site") == [site] && site != "" && Without(site, ' ')
    requires f.RepositoryNumber(numbers) != "" && Without(f.RepositoryNumber(numbers), '-')
    ensures GroupedSortKey(f, f.Printed(numbers))
         == Tuple(f.RepositoryNumber(numbers), dossier, AsInt(document))
  {
    var repository, d := f.RepositoryNumber(numbers), Join(DecimalTexts(dossier), ".");
    var rest := repository + ['-'] + (d + DocumentTail(document));
    ParsesRemainder(repository, dossier, document);
    PrintedText(f, site, numbers, dossier, document);
    if f.hasClientId { SkipsClientId(site, rest); }
  }

  lemma PrintedText(f: Formatter, site: string, numbers: Numbers, dossier: seq<nat>, document: Option<nat>)
    requires f.isGroupedByThree && InDossier(numbers, dossier, document)
    requires f.hasClientId ==> Parts(numbers, "site") == [site] && site != ""
    requires f.RepositoryNumber(numbers) != ""
    ensures var rest := f.RepositoryNumber(numbers) + ['-']
                        + (Join(DecimalTexts(dossier), ".") + DocumentTail(document));
      f.Printed(numbers) == if f.hasClientId then site + [' '] + rest else rest
  {
    PrintedShape(f, numbers, dossier, document);
    assert f.Base(numbers) == if f.hasClientId then site else "";
  }

  /** Without a repository part there is no blank to split at: the parser raises. */
  lemma SorterNeedsRepository(site: string, dossier: nat)
    requires Without(site, ' ')
    ensures GroupedSortKey(GROUPED, GROUPED.Printed(map["site" := [site], "dossier" := [Decimal(dossier)]]))
       == IndexError
  {
    var s := GROUPED.Printed(map["site" := [site], "dossier" := [Decimal(dossier)]]);
    DecimalWithout(dossier, ' ');
    assert s == site + "-" + Decimal(dossier);
    assert Without(s, ' ');
    FindNowhere(s, ' ');
  }

  /** A number without a hyphen is a repository folder's and sorts as text. */
  lemma RepositorySortsAsText(site: string, text: string)
    requires Without(text, '-') && Without(site, ' ')
    ensures GroupedSortKey(NO_CLIENT_ID_GROUPED, text) == Repository(text)
    ensures GroupedSortKey(GROUPED, site + [' '] + text) == Repository(text)
  {
    FindNowhere(text, '-');
    SkipsClientId(site, text);
  }

  /** A dossier or document part that is no number raises. */
  lemma TextBehindHyphenRaises(repository: string, dossier: string, document: string)
    requires Without(repository, '-') && Without(dossier, '-') && Without(dossier, '.')
    requires ParseInt(dossier) == None || ParseInt(document) == None
    ensures GroupedSortKey(NO_CLIENT_ID_GROUPED, repository + ['-'] + (dossier + ['-'] + document)) == ValueError
  {
    FindBehind(repository, '-', dossier + ['-'] + document);
    FindBehind(dossier, '-', document);
    FindNowhere(dossier, '.');
  }

  // ----- the order of sort keys -----

  /** The components of a tuple, compared from left to right like Python does. */
  datatype Component = Ref(text: string) | Dossiers(ns: seq<int>) | Document(n: int)

  function Components(key: SortKey): seq<Component>
    requires key.Tuple?
  {
    [Ref(key.repository), Dossiers(key.dossier)]
    + (if key.document.Some? then [Document(key.document.value)] else [])
  }

  predicate IntLess(a: int, b: int) { a < b }

  predicate ComponentLess(a: Component, b: Component) {
    match (a, b)
    case (Ref(s), Ref(t)) => s != t && N.TextLeq(s, t)
    case (Dossiers(m), Dossiers(n)) => m != n && N.LexLeq(m, n, IntLess)
    case (Document(m), Document(n)) => m < n
    case _ => false
  }

  predicate Before(a: SortKey, b: SortKey)
    requires a.Tuple? && b.Tuple?
  {
    a != b && N.LexLeq(Components(a), Components(b), ComponentLess)
  }

  lemma {:induction false} PrefixIsLeq<T>(a: seq<T>, b: seq<T>, less: (T, T) -> bool)
    requires a <= b
    ensures N.LexLeq(a, b, less)
  {
    if a != [] { PrefixIsLeq(a[1..], b[1..], less); }
  }

  /** A dossier sorts before its documents, and these before its subdossiers and all they contain. */
  lemma DossierDocumentSubdossier(repository: string, dossier: seq<int>, document: int,
                                  below: seq<int>, other: Option<int>)
    requires below != []
    ensures Before(Tuple(repository, dossier, None), Tuple(repository, dossier, Some(document)))
    ensures Before(Tuple(repository, dossier, Some(document)), Tuple(repository, dossier + below, other))
  {
    var parent, doc := Tuple(repository, dossier, None), Tuple(repository, dossier, Some(document));
    PrefixIsLeq(Components(parent), Components(doc), ComponentLess);
    var sub := Tuple(repository, dossier + below, other);
    PrefixIsLeq(dossier, dossier + below, IntLess);
    assert dossier != dossier + below by { assert |dossier| < |dossier + below|; }
    assert ComponentLess(Dossiers(dossier), Dossiers(dossier + below));
    assert Components(doc)[1..][0] == Dossiers(dossier) && Components(sub)[1..][0] == Dossiers(dossier + below);
  }

  /** Siblings sort numerically, whatever lies below them. */
  lemma SiblingsSortNumerically(repository: string, dossier: seq<int>, m: int, n: int,
                                below: seq<int>, below': seq<int>, document: Option<int>, document': Option<int>)
    requires m < n
    ensures Before(Tuple(repository, dossier + [m] + below, document),
                   Tuple(repository, dossier + [n] + below', document'))
  {
    var a, b := dossier + [m] + below, dossier + [n] + below';
    assert a == dossier + ([m] + below) && b == dossier + ([n] + below');
    N.LexCommonPrefix(dossier, [m] + below, [n] + below', IntLess);
    assert a[|dossier|] == m && b[|dossier|] == n;
    var x, y := Tuple(repository, a, document), Tuple(repository, b, document');
    assert ComponentLess(Dossiers(a), Dossiers(b));
    assert Components(x)[1..][0] == Dossiers(a) && Components(y)[1..][0] == Dossiers(b);
  }

  /** The repository text decides first, and in one dossier documents sort numerically. */
  lemma RepositoryDecidesFirst(a: string, b: string, x: seq<int>, y: seq<int>, m: Option<int>, n: Option<int>,
                               i: int, j: int)
    ensures a != b && N.TextLeq(a, b) ==> Before(Tuple(a, x, m), Tuple(b, y, n))
    ensures i < j ==> Before(Tuple(a, x, Some(i)), Tuple(a, x, Some(j)))
  {
    var p, q := Components(Tuple(a, x, Some(i))), Components(Tuple(a, x, Some(j)));
    assert p[1..][1..] == [Document(i)] && q[1..][1..] == [Document(j)];
    assert p[1..][0] == q[1..][0];
  }

  // ----- grouping loses the borders between parts -----

  /** Folders with other prefixes can print alike: grouping forgets where a part ends. */
  lemma GroupingCollides(a: string, b: string, c: string)
    ensures GROUPED.RepositoryNumber(map["repository" := [a + b, c]])
         == GROUPED.RepositoryNumber(map["repository" := [a, b + c]])
  {
    ConcatOfTwo(a + b, c);
    ConcatOfTwo(a, b + c);
    GroupOfFew([a + b, c]);
    GroupOfFew([a, b + c]);
    assert a + b + c == a + (b + c);
  }

  lemma ConcatOfTwo(a: string, b: string)
    ensures Concat([a, b]) == a + b
  {
    assert [a, b][1..] == [b] && [b][1..] == [];
    assert Concat([b]) == b;
  }

  function StripDots(s: string): string {
    if s == "" then "" else (if s[0] == '.' then "" else [s[0]]) + StripDots(s[1..])
  }

  lemma {:induction false} StripDotsSplits(a: string, b: string)
    ensures StripDots(a + b) == StripDots(a) + StripDots(b)
  {
    if a == "" {
      assert a + b == b;
    } else {
      assert (a + b)[1..] == a[1..] + b;
      StripDotsSplits(a[1..], b);
    }
  }

  lemma {:induction false} StripDotsNone(a: string)
    requires Without(a, '.')
    ensures StripDots(a) == a
  {
    if a != "" { StripDotsNone(a[1..]); }
  }

  lemma {:induction false} ConcatSplits(a: seq<string>, b: seq<string>)
    ensures Concat(a + b) == Concat(a) + Concat(b)
  {
    if a == [] {
      assert a + b == b;
    } else {
      assert (a + b)[1..] == a[1..] + b;
      ConcatSplits(a[1..], b);
    }
  }

  ghost predicate NoDots(parts: seq<string>) { forall k :: 0 <= k < |parts| ==> Without(parts[k], '.') }

  lemma {:induction false} ConcatNoDots(parts: seq<string>)
    requires NoDots(parts)
    ensures Without(Concat(parts), '.')
  {
    if parts != [] { ConcatNoDots(parts[1..]); }
  }

  /** Grouping only inserts dots. */
  lemma {:induction false} GroupingKeepsText(parts: seq<string>)
    requires NoDots(parts)
    ensures StripDots(Join(ConcatAll(Grouper(parts)), ".")) == Concat(parts)
    decreases |parts|
  {
    if parts == [] {
    } else if |parts| < 3 {
      GroupOfFew(parts);
      ConcatNoDots(parts);
      StripDotsNone(Concat(parts));
    } else {
      var group, rest := parts[..3], parts[3..];
      assert parts == group + rest;
      ConcatSplits(group, rest);
      ConcatNoDots(group);
      StripDotsNone(Concat(group));
      GroupingKeepsText(rest);
      StripDotsBetween(Concat(group), Join(ConcatAll(Grouper(rest)), "."));
    }
  }

  lemma StripDotsBetween(a: string, b: string)
    ensures StripDots(a + "." + b) == StripDots(a) + StripDots(b)
  {
    StripDotsSplits(a + ".", b);
    StripDotsSplits(a, ".");
  }

  lemma GroupOfFew(parts: seq<string>)
    requires 0 < |parts| < 3
    ensures Join(ConcatAll(Grouper(parts)), ".") == Concat(parts)
  {
    var filler := seq(3 - |parts|, _ => "");
    ConcatSplits(parts, filler);
    ConcatFiller(filler);
    assert Grouper(parts) == [parts + filler];
  }

  lemma {:induction false} ConcatFiller(filler: seq<string>)
    requires forall k :: 0 <= k < |filler| ==> filler[k] == ""
    ensures Concat(filler) == ""
  {
    if filler != [] { ConcatFiller(filler[1..]); }
  }
}
