/** Printing complete reference numbers, and the dotted parser that sorts them. */
module ReferenceFormatter {
  import opened Collections
  import opened Decimals

  /** The number parts of an object by reference type, each from the root down. */
  type Numbers = map<string, seq<string>>

  function Parts(numbers: Numbers, key: string): seq<string> {
    if key in numbers then numbers[key] else []
  }

  function Join(parts: seq<string>, separator: string): string {
    if parts == [] then ""
    else if |parts| == 1 then parts[0]
    else parts[0] + separator + Join(parts[1..], separator)
  }

  function Concat(parts: seq<string>): string {
    if parts == [] then "" else parts[0] + Concat(parts[1..])
  }

  /** The four registered formatters: dotted or grouped by three, with or without the client id. */
  datatype Formatter = Formatter(isGroupedByThree: bool, hasClientId: bool)
  {
    function RepositoryDossierSeparator(): string {
      if isGroupedByThree then "-" else " / "
    }

    function DossierDocumentSeparator(): string {
      if isGroupedByThree then "-" else " / "
    }

    function LocationPrefix(numbers: Numbers): string {
      Concat(Parts(numbers, "location_prefix"))
    }

    function RepositoryNumber(numbers: Numbers): string {
      if isGroupedByThree then Join(ConcatAll(Grouper(Parts(numbers, "repository"))), ".")
      else Join(Parts(numbers, "repository"), ".")
    }

    function DossierNumber(numbers: Numbers): string { Join(Parts(numbers, "dossier"), ".") }

    function DocumentNumber(numbers: Numbers): string { Join(Parts(numbers, "document"), ".") }

    /** The part in front of the repository number. */
    function Base(numbers: Numbers): string {
      var location := LocationPrefix(numbers);
      if !hasClientId then location
      else
        var site := Join(Parts(numbers, "site"), " ");
        if location == "" then site else location + " " + site
    }

    function Printed(numbers: Numbers): string {
      Behind(
        Behind(WithRepository(Base(numbers), RepositoryNumber(numbers)),
               RepositoryDossierSeparator(), DossierNumber(numbers)),
        DossierDocumentSeparator(), DocumentNumber(numbers))
    }

    /** Builds the complete number step by step. */
    method CompleteNumber(numbers: Numbers) returns (referenceNumber: string)
      ensures referenceNumber == Printed(numbers)
    {
      if hasClientId {
        referenceNumber := Join(Parts(numbers, "site"), " ");
        if LocationPrefix(numbers) != "" {
          referenceNumber := LocationPrefix(numbers) + " " + referenceNumber;
        }
      } else {
        referenceNumber := "";
        if LocationPrefix(numbers) != "" {
          referenceNumber := LocationPrefix(numbers);
        }
      }
      if RepositoryNumber(numbers) != "" {
        if referenceNumber != "" {
          referenceNumber := referenceNumber + " " + RepositoryNumber(numbers);
        } else {
          referenceNumber := RepositoryNumber(numbers);
        }
      }
      if DossierNumber(numbers) != "" {
        referenceNumber := referenceNumber + RepositoryDossierSeparator() + DossierNumber(numbers);
      }
      if DocumentNumber(numbers) != "" {
        referenceNumber := referenceNumber + DossierDocumentSeparator() + DocumentNumber(numbers);
      }
    }
  }

  const DOTTED := Formatter(false, true)
  const NO_CLIENT_ID_DOTTED := Formatter(false, false)
  const GROUPED := Formatter(true, true)
  const NO_CLIENT_ID_GROUPED := Formatter(true, false)

  function WithRepository(base: string, repository: string): string {
    if repository == "" then base
    else if base == "" then repository
    else base + " " + repository
  }

  function Behind(front: string, separator: string, part: string): string {
    if part == "" then front else front + separator + part
  }

  /** Groups of three parts; the last one is filled up with empty parts. */
  function Grouper(parts: seq<string>): seq<seq<string>> {
    if parts == [] then []
    else if |parts| >= 3 then [parts[..3]] + Grouper(parts[3..])
    else [parts + seq(3 - |parts|, _ => "")]
  }

  function ConcatAll(groups: seq<seq<string>>): seq<string> {
    if groups == [] then [] else [Concat(groups[0])] + ConcatAll(groups[1..])
  }

  // ----- the dotted parser -----

  predicate IsSeparator(c: char) { c == '/' || c == '.' || c == ',' || c == ' ' }

  /** Splits at every separator. */
  function Split(s: string): (r: seq<string>)
    ensures r != []
  {
    if s == "" then [""]
    else
      var rest := Split(s[1..]);
      if IsSeparator(s[0]) then [""] + rest else [[s[0]] + rest[0]] + rest[1..]
  }

  datatype Token = Int(value: int) | Str(text: string)

  function Convert(part: string): Token {
    match ParseInt(Strip(part))
    case Some(n) => Int(n)
    case None => Str(Strip(part))
  }

  function ConvertAll(parts: seq<string>): (r: seq<Token>)
    ensures |r| == |parts| && forall i :: 0 <= i < |parts| ==> r[i] == Convert(parts[i])
  {
    if parts == [] then [] else [Convert(parts[0])] + ConvertAll(parts[1..])
  }

  function DottedSortKey(value: string): seq<Token> {
    ConvertAll(Split(value))
  }

  method DottedSorter(value: string) returns (parts: seq<Token>)
    ensures parts == DottedSortKey(value)
  {
    parts := [];
    var split := Split(value);
    for i := 0 to |split|
      invariant |parts| == i && forall k :: 0 <= k < i ==> parts[k] == Convert(split[k])
    {
      var part := Strip(split[i]);
      var token := Str(part);
      match ParseInt(part) {
        case Some(n) => token := Int(n);
        case None =>
      }
      assert token == Convert(split[i]);
      parts := parts + [token];
    }
  }

  // ----- splitting what was printed -----

  /** A non-empty part without separators. */
  predicate Clean(part: string) {
    part != "" && forall k :: 0 <= k < |part| ==> !IsSeparator(part[k])
  }

  predicate AllClean(parts: seq<string>) {
    forall k :: 0 <= k < |parts| ==> Clean(parts[k])
  }

  lemma {:induction false} SplitClean(part: string)
    requires forall k :: 0 <= k < |part| ==> !IsSeparator(part[k])
    ensures Split(part) == [part]
  {
    if part != "" {
      SplitClean(part[1..]);
      assert [part[0]] + part[1..] == part;
    }
  }

  lemma {:induction false} SplitAt(a: string, c: char, b: string)
    requires IsSeparator(c)
    ensures Split(a + [c] + b) == Split(a) + Split(b)
  {
    var s := a + [c] + b;
    if a == "" {
      assert s[1..] == b;
    } else {
      assert s[1..] == a[1..] + [c] + b;
      SplitAt(a[1..], c, b);
    }
  }

  lemma {:induction false} SplitJoin(parts: seq<string>, c: char)
    requires parts != [] && AllClean(parts) && IsSeparator(c)
    ensures Split(Join(parts, [c])) == parts
  {
    SplitClean(parts[0]);
    if |parts| > 1 {
      assert AllClean(parts[1..]);
      SplitJoin(parts[1..], c);
      SplitAt(parts[0], c, Join(parts[1..], [c]));
      assert parts == [parts[0]] + parts[1..];
    }
  }

  lemma SplitBehind(front: string, part: string)
    ensures Split(front + " / " + part) == Split(front) + ["", ""] + Split(part)
  {
    assert front + " / " + part == front + [' '] + ("" + ['/'] + ("" + [' '] + part));
    SplitAt("", ' ', part);
    SplitAt("", '/', "" + [' '] + part);
    SplitAt(front, ' ', "" + ['/'] + ("" + [' '] + part));
    assert Split(front) + ([""] + ([""] + Split(part))) == Split(front) + ["", ""] + Split(part);
  }

  function Marked(parts: seq<string>): seq<string> {
    if parts == [] then [] else ["", ""] + parts
  }

  /** The parts of a complete number, with two empty ones in front of dossiers and documents. */
  function Tokens(head: seq<string>, numbers: Numbers): seq<string> {
    head + Parts(numbers, "repository") + Marked(Parts(numbers, "dossier")) + Marked(Parts(numbers, "document"))
  }

  /** All parts are clean, and the base is the given clean parts joined by blanks. */
  ghost predicate Printable(f: Formatter, head: seq<string>, numbers: Numbers) {
    && !f.isGroupedByThree && AllClean(head) && f.Base(numbers) == Join(head, " ")
    && AllClean(Parts(numbers, "repository")) && AllClean(Parts(numbers, "dossier"))
    && AllClean(Parts(numbers, "document")) && head + Parts(numbers, "repository") != []
  }

  lemma SplitFront(head: seq<string>, repository: seq<string>)
    requires AllClean(head) && AllClean(repository) && head + repository != []
    ensures Split(WithRepository(Join(head, " "), Join(repository, "."))) == head + repository
  {
    if repository == [] {
      SplitJoin(head, ' ');
    } else if head == [] {
      SplitJoin(repository, '.');
    } else {
      SplitJoin(head, ' ');
      SplitJoin(repository, '.');
      SplitAt(Join(head, " "), ' ', Join(repository, "."));
    }
  }

  lemma SplitMarked(front: string, parts: seq<string>)
    requires AllClean(parts)
    ensures Split(Behind(front, " / ", Join(parts, "."))) == Split(front) + Marked(parts)
  {
    if parts != [] {
      SplitJoin(parts, '.');
      SplitBehind(front, Join(parts, "."));
      assert Split(front) + ["", ""] + parts == Split(front) + (["", ""] + parts);
    }
  }

  /** Splitting a printed dotted number gives back its parts in order. */
  lemma SplitOfPrinted(f: Formatter, head: seq<string>, numbers: Numbers)
    requires Printable(f, head, numbers)
    ensures Split(f.Printed(numbers)) == Tokens(head, numbers)
  {
    var front := WithRepository(f.Base(numbers), f.RepositoryNumber(numbers));
    SplitFront(head, Parts(numbers, "repository"));
    SplitMarked(front, Parts(numbers, "dossier"));
    SplitMarked(Behind(front, " / ", f.DossierNumber(numbers)), Parts(numbers, "document"));
  }

  // ----- canonical decimals -----

  function DecimalTexts(ns: seq<nat>): (r: seq<string>)
    ensures |r| == |ns| && forall i :: 0 <= i < |ns| ==> r[i] == Decimal(ns[i])
  {
    seq(|ns|, i requires 0 <= i < |ns| => Decimal(ns[i]))
  }

  function Ints(ns: seq<nat>): (r: seq<Token>)
    ensures |r| == |ns| && forall i :: 0 <= i < |ns| ==> r[i] == Int(ns[i])
  {
    seq(|ns|, i requires 0 <= i < |ns| => Int(ns[i]))
  }

  lemma {:induction false} ConvertDecimals(ns: seq<nat>)
    ensures ConvertAll(DecimalTexts(ns)) == Ints(ns)
  {
    forall i | 0 <= i < |ns| ensures Convert(Decimal(ns[i])) == Int(ns[i]) {
      ParseDecimal(ns[i]);
    }
  }

  lemma {:induction false} ConvertAppend(a: seq<string>, b: seq<string>)
    ensures ConvertAll(a + b) == ConvertAll(a) + ConvertAll(b)
  {
  }

  function MarkedInts(ns: seq<nat>): seq<Token> {
    if ns == [] then [] else [Str(""), Str("")] + Ints(ns)
  }

  lemma ConvertMarked(ns: seq<nat>)
    ensures ConvertAll(Marked(DecimalTexts(ns))) == MarkedInts(ns)
  {
    ConvertDecimals(ns);
    if ns != [] {
      ConvertAppend(["", ""], DecimalTexts(ns));
      assert ConvertAll(["", ""]) == [Str(""), Str("")];
    }
  }

  /** The sort key of a printed number: the site, then its repository, dossier and document numbers as
      integers, so that numbers sort numerically. */
  lemma SorterOfPrinted(site: string, repository: seq<nat>, dossier: seq<nat>, document: seq<nat>, numbers: Numbers)
    requires Clean(site) && Strip(site) == site && ParseInt(site) == None
    requires Parts(numbers, "site") == [site] && Parts(numbers, "location_prefix") == []
    requires Parts(numbers, "repository") == DecimalTexts(repository)
    requires Parts(numbers, "dossier") == DecimalTexts(dossier)
    requires Parts(numbers, "document") == DecimalTexts(document)
    ensures DottedSortKey(DOTTED.Printed(numbers))
         == [Str(site)] + Ints(repository) + MarkedInts(dossier) + MarkedInts(document)
  {
    SplitOfPrinted(DOTTED, [site], numbers);
    ConvertAppend([site] + DecimalTexts(repository) + Marked(DecimalTexts(dossier)), Marked(DecimalTexts(document)));
    ConvertAppend([site] + DecimalTexts(repository), Marked(DecimalTexts(dossier)));
    ConvertAppend([site], DecimalTexts(repository));
    ConvertDecimals(repository);
    ConvertMarked(dossier);
    ConvertMarked(document);
    assert ConvertAll([site]) == [Str(site)];
  }

  /** The parser splits at slashes, dots, commas and blanks, and at nothing else. */
  lemma SplitsAtExactly(a: string, c: char, b: string)
    ensures c in ['/', '.', ',', ' '] ==> Split(a + [c] + b) == Split(a) + Split(b)
    ensures (forall k :: 0 <= k < |a| ==> a[k] !in ['/', '.', ',', ' ']) ==> Split(a) == [a]
  {
    if IsSeparator(c) { SplitAt(a, c, b); }
    if forall k :: 0 <= k < |a| ==> a[k] !in ['/', '.', ',', ' '] {
      assert forall k :: 0 <= k < |a| ==> !IsSeparator(a[k]);
      SplitClean(a);
    }
  }

  lemma LocationIs(f: Formatter, n: Numbers, a: string, b: string)
    ensures f.LocationPrefix(n["location_prefix" := [a]]) == a
    ensures f.LocationPrefix(n["location_prefix" := [a, b]]) == a + b
  {
    assert [a][1..] == [] && [a, b][1..] == [b] && [b][1..] == [];
    assert Concat([a]) == a + "" == a && Concat([b]) == b + "" == b;
  }

  /** The location prefixes stand in front of everything, run together. */
  lemma LocationComesFirst(f: Formatter, n: Numbers, a: string, b: string)
    requires Parts(n, "location_prefix") == [] && a != ""
    ensures (if f.hasClientId then f.Base(n) != "" else f.RepositoryNumber(n) != "") ==>
      f.Printed(n["location_prefix" := [a]]) == a + " " + f.Printed(n)
    ensures f.Printed(n["location_prefix" := [a, b]]) == f.Printed(n["location_prefix" := [a + b]])
  {
    var one, two := n["location_prefix" := [a]], n["location_prefix" := [a, b]];
    var joined := n["location_prefix" := [a + b]];
    LocationIs(f, n, a, b);
    LocationIs(f, n, a + b, b);
    SameBehindBase(f, n, one);
    SameBehindBase(f, two, joined);
    assert Parts(n, "site") == Parts(one, "site") && Parts(two, "site") == Parts(joined, "site");
    assert f.Base(two) == f.Base(joined);
    if if f.hasClientId then f.Base(n) != "" else f.RepositoryNumber(n) != "" {
      InFront(a, f.Base(n), f.RepositoryNumber(n), f.hasClientId, f.RepositoryDossierSeparator(),
              f.DossierNumber(n), f.DocumentNumber(n));
    }
  }

  lemma SameBehindBase(f: Formatter, n: Numbers, n': Numbers)
    requires forall key | key != "location_prefix" :: Parts(n, key) == Parts(n', key)
    ensures f.RepositoryNumber(n) == f.RepositoryNumber(n') && f.DossierNumber(n) == f.DossierNumber(n')
    ensures f.DocumentNumber(n) == f.DocumentNumber(n')
  {
    assert Parts(n, "repository") == Parts(n', "repository");
    assert Parts(n, "dossier") == Parts(n', "dossier") && Parts(n, "document") == Parts(n', "document");
  }

  lemma InFront(a: string, base: string, repository: string, withBase: bool, separator: string, d: string, m: string)
    requires a != "" && (if withBase then base != "" else base == "" && repository != "")
    ensures var base' := if withBase then a + " " + base else a;
      Behind(Behind(WithRepository(base', repository), separator, d), separator, m)
        == a + " " + Behind(Behind(WithRepository(base, repository), separator, d), separator, m)
  {
    var base' := if withBase then a + " " + base else a;
    var front, front' := WithRepository(base, repository), WithRepository(base', repository);
    assert front' == a + " " + front;
    BehindInFront(a + " ", front, separator, d);
    BehindInFront(a + " ", Behind(front, separator, d), separator, m);
  }

  lemma BehindInFront(a: string, front: string, separator: string, part: string)
    ensures Behind(a + front, separator, part) == a + Behind(front, separator, part)
  {
  }

  // ----- numbers that print alike -----

  /** A document outside any dossier prints like a dossier of that number. */
  lemma DocumentWithoutDossierCollides(site: string, repository: seq<string>, part: string)
    ensures DOTTED.Printed(map["site" := [site], "repository" := repository, "document" := [part]])
         == DOTTED.Printed(map["site" := [site], "repository" := repository, "dossier" := [part]])
  {
  }

  lemma {:induction false} JoinSplitsPart(front: seq<string>, a: string, b: string)
    ensures Join(front + [a + "." + b], ".") == Join(front + [a, b], ".")
  {
    if front == [] {
      assert [a, b][1..] == [b];
    } else {
      assert (front + [a + "." + b])[1..] == front[1..] + [a + "." + b];
      assert (front + [a, b])[1..] == front[1..] + [a, b];
      JoinSplitsPart(front[1..], a, b);
    }
  }

  /** A part with a dot inside prints like the two parts around the dot. */
  lemma DotInPartCollides(site: string, front: seq<string>, a: string, b: string)
    ensures DOTTED.Printed(map["site" := [site], "repository" := front + [a + "." + b]])
         == DOTTED.Printed(map["site" := [site], "repository" := front + [a, b]])
  {
    JoinSplitsPart(front, a, b);
    var n := map["site" := [site], "repository" := front + [a + "." + b]];
    var n' := map["site" := [site], "repository" := front + [a, b]];
    assert DOTTED.RepositoryNumber(n) == DOTTED.RepositoryNumber(n');
  }
}
