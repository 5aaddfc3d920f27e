/** When two complete numbers are the same text: exactly when they have the same repository number and
    the same parts behind it, for all four formatters. */
module NumberIdentity {
  import opened Collections
  import opened ReferenceFormatter
  import opened SeparatedTexts
  import opened RepositoryNumbers
  import G = GroupedFormatter

  /** The character by which dossiers and documents are told apart. */
  function Marker(f: Formatter): char { if f.isGroupedByThree then '-' else '/' }

  function Padding(f: Formatter): string { if f.isGroupedByThree then "" else " " }

  /** Blanks and commas inside a part do no harm; dots are accounted for. */
  predicate Separable(f: Formatter, part: string) {
    part != "" && G.Without(part, Marker(f))
  }

  predicate AllSeparable(f: Formatter, parts: seq<string>) {
    forall k :: 0 <= k < |parts| ==> Separable(f, parts[k])
  }

  // ----- complete numbers -----

  /** The pieces of the dossier parts and of the document parts, as far as there are any. */
  function Items(numbers: Numbers): seq<seq<string>> {
    Present(Pieces(Parts(numbers, "dossier"))) + Present(Pieces(Parts(numbers, "document")))
  }

  function Present(parts: seq<string>): seq<seq<string>> {
    if parts == [] then [] else [parts]
  }

  function ItemTexts(items: seq<seq<string>>): (r: seq<string>)
    ensures |r| == |items| && forall i :: 0 <= i < |items| ==> r[i] == Join(items[i], ".")
  {
    seq(|items|, i requires 0 <= i < |items| => Join(items[i], "."))
  }

  ghost predicate Separated(f: Formatter, numbers: Numbers) {
    && G.Without(f.RepositoryNumber(numbers), Marker(f))
    && AllSeparable(f, Parts(numbers, "dossier")) && AllSeparable(f, Parts(numbers, "document"))
  }

  /** What the repository number adds to the base. */
  function Lead(base: string, repository: string): string {
    if repository == "" then "" else if base == "" then repository else " " + repository
  }

  lemma JoinEmpty(f: Formatter, parts: seq<string>)
    requires AllSeparable(f, parts)
    ensures Join(parts, ".") == "" <==> parts == []
  {
  }

  lemma JoinOfPieces(parts: seq<string>)
    ensures Join(Pieces(parts), ".") == Join(parts, ".")
  {
    if parts != [] {
      SplitOfJoin(parts);
      JoinOfSplit(Join(parts, "."));
    }
  }

  lemma PrintedShape(f: Formatter, numbers: Numbers)
    requires AllSeparable(f, Parts(numbers, "dossier")) && AllSeparable(f, Parts(numbers, "document"))
    ensures f.Printed(numbers)
         == f.Base(numbers) + (Lead(f.Base(numbers), f.RepositoryNumber(numbers))
                               + Tail(Padding(f), Marker(f), ItemTexts(Items(numbers))))
  {
    var base, front := f.Base(numbers), WithRepository(f.Base(numbers), f.RepositoryNumber(numbers));
    var dossier, document := Parts(numbers, "dossier"), Parts(numbers, "document");
    assert front == base + Lead(base, f.RepositoryNumber(numbers));
    JoinEmpty(f, dossier);
    JoinEmpty(f, document);
    JoinOfPieces(dossier);
    JoinOfPieces(document);
    BehindIsTail(f, front, Pieces(dossier), Pieces(document));
    assert f.Printed(numbers) == front + Tail(Padding(f), Marker(f), ItemTexts(Items(numbers)));
  }

  lemma BehindIsTail(f: Formatter, front: string, dossier: seq<string>, document: seq<string>)
    requires Join(dossier, ".") == "" <==> dossier == []
    requires Join(document, ".") == "" <==> document == []
    ensures var separator := f.RepositoryDossierSeparator();
      Behind(Behind(front, separator, Join(dossier, ".")), separator, Join(document, "."))
        == front + Tail(Padding(f), Marker(f), ItemTexts(Present(dossier) + Present(document)))
  {
    var separator, d, m := f.RepositoryDossierSeparator(), Join(dossier, "."), Join(document, ".");
    var texts := if m == "" then [] else [m];
    assert ItemTexts(Present(dossier) + Present(document)) == (if d == "" then [] else [d]) + texts;
    BehindOne(f, front, d, texts);
    BehindOne(f, Behind(front, separator, d), m, []);
    assert texts + [] == texts;
  }

  lemma BehindOne(f: Formatter, front: string, part: string, rest: seq<string>)
    ensures Behind(front, f.RepositoryDossierSeparator(), part) + Tail(Padding(f), Marker(f), rest)
         == front + Tail(Padding(f), Marker(f), (if part == "" then [] else [part]) + rest)
  {
    if part == "" {
      assert [] + rest == rest;
    } else {
      assert f.RepositoryDossierSeparator() == Padding(f) + [Marker(f)] + Padding(f);
      assert ([part] + rest)[1..] == rest;
    }
  }

  lemma ItemsWithout(f: Formatter, numbers: Numbers)
    requires Separated(f, numbers)
    ensures AllWithout(ItemTexts(Items(numbers)), Marker(f))
  {
    G.JoinWithout(Parts(numbers, "dossier"), Marker(f));
    G.JoinWithout(Parts(numbers, "document"), Marker(f));
    JoinOfPieces(Parts(numbers, "dossier"));
    JoinOfPieces(Parts(numbers, "document"));
  }

  /** Each item can be read off its text. */
  ghost predicate AreSplits(items: seq<seq<string>>) {
    forall i :: 0 <= i < |items| ==> items[i] == DotSplit(Join(items[i], "."))
  }

  lemma ItemsAreSplits(numbers: Numbers)
    ensures AreSplits(Items(numbers))
  {
    PiecesAreSplit(Parts(numbers, "dossier"));
    PiecesAreSplit(Parts(numbers, "document"));
  }

  lemma PiecesAreSplit(parts: seq<string>)
    ensures AreSplits(Present(Pieces(parts)))
  {
    if parts != [] {
      JoinOfPieces(parts);
      SplitOfJoin(parts);
    }
  }

  lemma ItemTextsInjective(a: seq<seq<string>>, b: seq<seq<string>>)
    requires AreSplits(a) && AreSplits(b) && ItemTexts(a) == ItemTexts(b)
    ensures a == b
  {
    assert |a| == |ItemTexts(a)| == |b|;
    forall i | 0 <= i < |a| ensures a[i] == b[i] {
      assert ItemTexts(a)[i] == ItemTexts(b)[i];
    }
  }

  lemma EqualTexts(f: Formatter, base: string, n: Numbers, n': Numbers)
    requires Separated(f, n) && Separated(f, n')
    requires Lead(base, f.RepositoryNumber(n)) + Tail(Padding(f), Marker(f), ItemTexts(Items(n)))
          == Lead(base, f.RepositoryNumber(n')) + Tail(Padding(f), Marker(f), ItemTexts(Items(n')))
    ensures f.RepositoryNumber(n) == f.RepositoryNumber(n') && Items(n) == Items(n')
  {
    ItemsWithout(f, n);
    ItemsWithout(f, n');
    LeadWithout(f, base, f.RepositoryNumber(n));
    LeadWithout(f, base, f.RepositoryNumber(n'));
    TailInjective(Lead(base, f.RepositoryNumber(n)), ItemTexts(Items(n)),
                  Lead(base, f.RepositoryNumber(n')), ItemTexts(Items(n')), Padding(f), Marker(f));
    ItemsAreSplits(n);
    ItemsAreSplits(n');
    ItemTextsInjective(Items(n), Items(n'));
    LeadInjective(base, f.RepositoryNumber(n), f.RepositoryNumber(n'));
  }

  /** Behind the same base two complete numbers are equal exactly when their repository numbers are and
      the pieces behind them; what is lost is whether single pieces are of a dossier or a document, and
      which dots are inside a part. */
  lemma PrintedEqualExactly(f: Formatter, n: Numbers, n': Numbers)
    requires Separated(f, n) && Separated(f, n') && f.Base(n) == f.Base(n')
    ensures f.Printed(n) == f.Printed(n')
       <==> f.RepositoryNumber(n) == f.RepositoryNumber(n') && Items(n) == Items(n')
  {
    PrintedShape(f, n);
    PrintedShape(f, n');
    if f.Printed(n) == f.Printed(n') {
      var base, pad, c := f.Base(n), Padding(f), Marker(f);
      AppendInjective(base, Lead(base, f.RepositoryNumber(n)) + Tail(pad, c, ItemTexts(Items(n))),
                      base, Lead(base, f.RepositoryNumber(n')) + Tail(pad, c, ItemTexts(Items(n'))));
      EqualTexts(f, base, n, n');
    }
  }

  lemma LeadWithout(f: Formatter, base: string, repository: string)
    requires G.Without(repository, Marker(f))
    ensures G.Without(Lead(base, repository), Marker(f))
  {
  }

  lemma LeadInjective(base: string, repository: string, repository': string)
    requires Lead(base, repository) == Lead(base, repository')
    ensures repository == repository'
  {
    assert repository != "" ==> (" " + repository)[1..] == repository;
    assert repository' != "" ==> (" " + repository')[1..] == repository';
  }

  /** The same with the repository parts: exactly the pieces of what the formatter joins are told. */
  lemma NumbersEqualExactly(f: Formatter, n: Numbers, n': Numbers)
    requires Separated(f, n) && Separated(f, n') && f.Base(n) == f.Base(n')
    requires NoEmpty(Parts(n, "repository")) && NoEmpty(Parts(n', "repository"))
    ensures f.Printed(n) == f.Printed(n')
       <==> Pieces(PrintedParts(f, Parts(n, "repository"))) == Pieces(PrintedParts(f, Parts(n', "repository")))
            && Items(n) == Items(n')
  {
    PrintedEqualExactly(f, n, n');
    RepositoryNumberExactly(f, n, n');
  }

  /** Where documents only occur in dossiers, the pieces of either are told apart. */
  lemma ItemsDetermine(n: Numbers, n': Numbers)
    requires Items(n) == Items(n')
    requires Parts(n, "document") != [] ==> Parts(n, "dossier") != []
    requires Parts(n', "document") != [] ==> Parts(n', "dossier") != []
    ensures Pieces(Parts(n, "dossier")) == Pieces(Parts(n', "dossier"))
    ensures Pieces(Parts(n, "document")) == Pieces(Parts(n', "document"))
  {
    assert |Items(n)| == |Items(n')|;
    assert Items(n) != [] ==> Items(n)[0] == Pieces(Parts(n, "dossier"));
    assert Items(n') != [] ==> Items(n')[0] == Pieces(Parts(n', "dossier"));
    assert |Items(n)| > 1 ==> Items(n)[1] == Pieces(Parts(n, "document"));
    assert |Items(n')| > 1 ==> Items(n')[1] == Pieces(Parts(n', "document"));
  }

  /** A part that contains the marker between two texts prints like a part and a dossier. */
  lemma MarkerInPartCollides(f: Formatter, site: string, a: string, b: string)
    requires a != "" && b != ""
    ensures f.Printed(map["site" := [site], "repository" := [a + f.RepositoryDossierSeparator() + b]])
         == f.Printed(map["site" := [site], "repository" := [a], "dossier" := [b]])
  {
    var joined := a + f.RepositoryDossierSeparator() + b;
    var n: Numbers := map["site" := [site], "repository" := [joined]];
    var n': Numbers := map["site" := [site], "repository" := [a], "dossier" := [b]];
    OnePartRepository(f, n, joined);
    OnePartRepository(f, n', a);
    assert f.Base(n) == f.Base(n');
    assert f.DossierNumber(n) == "" && f.DocumentNumber(n) == "" && f.DocumentNumber(n') == "";
    assert f.DossierNumber(n') == b && joined != "";
    BehindInside(f.Base(n), a, f.RepositoryDossierSeparator(), b);
  }

  lemma BehindInside(base: string, a: string, separator: string, b: string)
    requires a != "" && b != ""
    ensures WithRepository(base, a + separator + b) == Behind(WithRepository(base, a), separator, b)
  {
  }

  lemma OnePartRepository(f: Formatter, n: Numbers, part: string)
    requires Parts(n, "repository") == [part]
    ensures f.RepositoryNumber(n) == part
  {
    G.GroupOfFew([part]);
    assert Concat([part]) == part by { assert [part][1..] == [] && part + "" == part; }
  }

  // ----- different bases -----

  lemma RepositoryWithoutMarker(f: Formatter, numbers: Numbers)
    requires AllSeparable(f, Parts(numbers, "repository"))
    ensures G.Without(f.RepositoryNumber(numbers), Marker(f))
  {
    var parts := Parts(numbers, "repository");
    GroupsKeep(parts, Marker(f));
    G.JoinWithout(if f.isGroupedByThree then Groups(parts) else parts, Marker(f));
  }

  /** What stands in front of the first empty part is determined, and so is what follows. */
  lemma {:induction false} MarkDetermines(a: seq<string>, x: seq<string>, b: seq<string>, y: seq<string>)
    requires NoEmpty(a) && NoEmpty(b) && (x == [] || x[0] == "") && (y == [] || y[0] == "")
    requires a + x == b + y
    ensures a == b && x == y
  {
    assert a == [] ==> a + x == x;
    assert b == [] ==> b + y == y;
    assert a != [] ==> (a + x)[0] == a[0];
    assert b != [] ==> (b + y)[0] == b[0];
    if a != [] && b != [] {
      assert (a + x)[1..] == a[1..] + x && (b + y)[1..] == b[1..] + y;
      MarkDetermines(a[1..], x, b[1..], y);
    }
  }

  lemma FrontDetermines(head: seq<string>, r: seq<string>, rest: seq<string>,
                        head': seq<string>, r': seq<string>, rest': seq<string>)
    requires NoEmpty(head) && NoEmpty(r) && NoEmpty(head') && NoEmpty(r') && |head| == |head'|
    requires (rest == [] || rest[0] == "") && (rest' == [] || rest'[0] == "")
    requires head + r + rest == head' + r' + rest'
    ensures head == head' && r == r'
  {
    MarkDetermines(head + r, rest, head' + r', rest');
    AppendInjective(head, r, head', r');
  }

  lemma TokensDetermineFront(head: seq<string>, n: Numbers, head': seq<string>, n': Numbers)
    requires Tokens(head, n) == Tokens(head', n') && |head| == |head'|
    requires NoEmpty(head) && NoEmpty(Parts(n, "repository")) && NoEmpty(head') && NoEmpty(Parts(n', "repository"))
    ensures head == head' && Parts(n, "repository") == Parts(n', "repository")
  {
    var r, d, m := Parts(n, "repository"), Marked(Parts(n, "dossier")), Marked(Parts(n, "document"));
    var r', d', m' := Parts(n', "repository"), Marked(Parts(n', "dossier")), Marked(Parts(n', "document"));
    Associative(head + r, d, m);
    Associative(head' + r', d', m');
    FrontDetermines(head, r, d + m, head', r', d' + m');
  }

  lemma PrintableIsSeparated(f: Formatter, head: seq<string>, n: Numbers)
    requires Printable(f, head, n)
    ensures Separated(f, n) && AllSeparable(f, Parts(n, "repository"))
  {
    RepositoryWithoutMarker(f, n);
  }

  /** Also across admin units, as long as no part contains a separator of the dotted parser: equal
      numbers have equal bases, repository parts and parts behind them, and the other way round. */
  lemma DottedEqualExactly(f: Formatter, head: seq<string>, n: Numbers, head': seq<string>, n': Numbers)
    requires Printable(f, head, n) && Printable(f, head', n') && |head| == |head'|
    ensures f.Printed(n) == f.Printed(n')
       <==> head == head' && Parts(n, "repository") == Parts(n', "repository") && Items(n) == Items(n')
  {
    PrintableIsSeparated(f, head, n);
    PrintableIsSeparated(f, head', n');
    if f.Printed(n) == f.Printed(n') {
      SplitOfPrinted(f, head, n);
      SplitOfPrinted(f, head', n');
      TokensDetermineFront(head, n, head', n');
    }
    if head == head' { PrintedEqualExactly(f, n, n'); }
    if Parts(n, "repository") == Parts(n', "repository") { assert f.RepositoryNumber(n) == f.RepositoryNumber(n'); }
  }
}
