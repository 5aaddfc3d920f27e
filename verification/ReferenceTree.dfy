/** Complete reference numbers over the whole content tree: collecting the parts on the way up, and
    why distinct objects get distinct numbers. */
module ReferenceTree {
  import opened Collections
  import opened Decimals
  import opened ReferenceFormatter
  import opened SeparatedTexts
  import opened RepositoryNumbers
  import opened NumberIdentity
  import P = ReferencePrefixes
  import Q = SequenceNumbers
  import G = GroupedFormatter

  const DOCUMENT_KEY := "DefaultSequenceNumberGenerator.opengever.document.document"

  /** A content object with its chain of containers. `Other` is any content without a number part of
      its own, such as a task. */
  datatype Content =
    | Site
    | RepositoryRoot(parent: Content, id: int)
    | RepositoryFolder(parent: Content, id: int)
    | Dossier(parent: Content, id: int)
    | Document(parent: Content, id: int)
    | Other(parent: Content, id: int)

  /** What the local numbers are read from: the admin unit, the prefix mappings of each container, the
      live objects and the stored sequence numbers. */
  datatype Store = Store(abbreviation: string, mappings: map<int, map<P.TypeKey, P.Mapping>>,
                         live: set<int>, sequence: map<Q.Content, nat>)

  function MappingIn(store: Store, container: Content, key: P.TypeKey): P.Mapping {
    if container.Site? || container.id !in store.mappings || key !in store.mappings[container.id] then P.EMPTY
    else store.mappings[container.id][key]
  }

  function StoredPrefix(store: Store, container: Content, key: P.TypeKey, id: int): string {
    var m := MappingIn(store, container, key);
    if id in m.prefix then m.prefix[id] else ""
  }

  function RefType(c: Content): string {
    match c
    case Site => "site"
    case RepositoryRoot(_, _) => "repositoryroot"
    case RepositoryFolder(_, _) => "repository"
    case Dossier(_, _) => "dossier"
    case Document(_, _) => "document"
    case Other(_, _) => "basic"
  }

  function LocalNumber(store: Store, c: Content): string {
    match c
    case Site => store.abbreviation
    case RepositoryFolder(parent, id) => StoredPrefix(store, parent, P.RepositoryFolderKey, id)
    case Dossier(parent, id) => StoredPrefix(store, parent, P.DossierKey, id)
    case Document(_, id) =>
      var obj := Q.Content(id, DOCUMENT_KEY);
      if obj in store.sequence && store.sequence[obj] != 0 then Decimal(store.sequence[obj]) else ""
    case _ => ""
  }

  /** The local numbers of one type on the path, from the root down. */
  function PathParts(store: Store, c: Content, key: string): seq<string> {
    (if c.Site? then [] else PathParts(store, c.parent, key))
    + (if RefType(c) == key then [LocalNumber(store, c)] else [])
  }

  /** The dictionary that the adapters of all containers append to. */
  class NumbersDict {
    var numbers: Numbers

    constructor ()
      ensures numbers == map[]
    {
      numbers := map[];
    }

    method AppendLocalNumber(store: Store, c: Content)
      modifies this
      ensures numbers == old(numbers)[RefType(c) := [LocalNumber(store, c)] + Parts(old(numbers), RefType(c))]
    {
      if RefType(c) !in numbers || numbers[RefType(c)] == [] {
        numbers := numbers[RefType(c) := []];
      }
      numbers := numbers[RefType(c) := [LocalNumber(store, c)] + numbers[RefType(c)]];
    }
  }

  function Above(store: Store, c: Content, key: string): seq<string> {
    if c.Site? then [] else PathParts(store, c.parent, key)
  }

  /** Climbs from the object to the site, putting each local number in front. */
  method GetParentNumbers(store: Store, context: Content) returns (numbers: Numbers)
    ensures forall key :: Parts(numbers, key) == PathParts(store, context, key)
  {
    var dict := new NumbersDict();
    dict.AppendLocalNumber(store, context);
    var parent := context;
    while !parent.Site?
      invariant forall key ::
        PathParts(store, context, key) == Above(store, parent, key) + Parts(dict.numbers, key)
      decreases parent
    {
      parent := parent.parent;
      ghost var before := dict.numbers;
      dict.AppendLocalNumber(store, parent);
      forall key ensures PathParts(store, context, key) == Above(store, parent, key) + Parts(dict.numbers, key) {
        var above := Above(store, parent, key);
        var own := if RefType(parent) == key then [LocalNumber(store, parent)] else [];
        Associative(above, own, Parts(before, key));
        assert Parts(dict.numbers, key) == own + Parts(before, key);
      }
    }
    numbers := dict.numbers;
  }

  /** The numbers dictionary of an object. */
  function NumbersOf(store: Store, c: Content): Numbers {
    map key | key in {"site", "repositoryroot", "repository", "dossier", "document", "basic"}
      :: PathParts(store, c, key)
  }

  /** The complete number depends on the parts only, so it is the one printed from the path. */
  method GetNumber(f: Formatter, store: Store, context: Content) returns (number: string)
    ensures number == CompleteNumber(f, store, context)
  {
    var numbers := GetParentNumbers(store, context);
    number := f.CompleteNumber(numbers);
    PartsOfNumbers(store, context);
    PrintedFromParts(f, numbers, NumbersOf(store, context));
  }

  lemma PrintedFromParts(f: Formatter, n: Numbers, n': Numbers)
    requires Parts(n, "site") == Parts(n', "site") && Parts(n, "location_prefix") == Parts(n', "location_prefix")
    requires Parts(n, "repository") == Parts(n', "repository") && Parts(n, "dossier") == Parts(n', "dossier")
    requires Parts(n, "document") == Parts(n', "document")
    ensures f.Printed(n) == f.Printed(n')
  {
    assert f.Base(n) == f.Base(n');
    assert f.RepositoryNumber(n) == f.RepositoryNumber(n');
    assert f.DossierNumber(n) == f.DossierNumber(n') && f.DocumentNumber(n) == f.DocumentNumber(n');
  }

  lemma PartsOfNumbers(store: Store, c: Content)
    ensures Parts(NumbersOf(store, c), "site") == PathParts(store, c, "site")
    ensures Parts(NumbersOf(store, c), "repository") == PathParts(store, c, "repository")
    ensures Parts(NumbersOf(store, c), "dossier") == PathParts(store, c, "dossier")
    ensures Parts(NumbersOf(store, c), "document") == PathParts(store, c, "document")
    ensures Parts(NumbersOf(store, c), "location_prefix") == PathParts(store, c, "location_prefix") == []
  {
    NoLocationPrefix(store, c);
  }

  function CompleteNumber(f: Formatter, store: Store, c: Content): string {
    f.Printed(NumbersOf(store, c))
  }

  lemma {:induction false} NoLocationPrefix(store: Store, c: Content)
    ensures PathParts(store, c, "location_prefix") == []
  {
    if !c.Site? { NoLocationPrefix(store, c.parent); }
  }

  // ----- where objects can be -----

  /** Folders lie in the root or in folders, dossiers in folders or dossiers, documents in dossiers,
      possibly inside other content there. */
  ghost predicate WellPlaced(c: Content) {
    match c
    case Site => true
    case RepositoryRoot(parent, _) => parent.Site?
    case RepositoryFolder(parent, _) => (parent.RepositoryRoot? || parent.RepositoryFolder?) && WellPlaced(parent)
    case Dossier(parent, _) => (parent.RepositoryFolder? || parent.Dossier?) && WellPlaced(parent)
    case Document(parent, _) => (parent.Dossier? || parent.Other?) && WellPlaced(parent)
    case Other(parent, _) => (parent.Dossier? || parent.Other?) && WellPlaced(parent)
  }

  function RootOf(c: Content): Content {
    if c.Site? || c.RepositoryRoot? then c else RootOf(c.parent)
  }

  /** Every folder and dossier on the path is live and has a prefix that can be told apart in print;
      a document has a sequence number. */
  ghost predicate Numbered(f: Formatter, store: Store, c: Content) {
    match c
    case Site => true
    case RepositoryFolder(parent, id) =>
      && id in store.live && id in MappingIn(store, parent, P.RepositoryFolderKey).prefix
      && Separable(f, LocalNumber(store, c)) && Numbered(f, store, parent)
    case Dossier(parent, id) =>
      && id in store.live && id in MappingIn(store, parent, P.DossierKey).prefix
      && Separable(f, LocalNumber(store, c)) && Numbered(f, store, parent)
    case Document(parent, id) => Q.Content(id, DOCUMENT_KEY) in store.sequence && Numbered(f, store, parent)
    case RepositoryRoot(parent, _) => Numbered(f, store, parent)
    case Other(parent, _) => Numbered(f, store, parent)
  }

  /** Each container's mappings came about by a legal run over the same live objects, and the stored
      sequence numbers by some run of the number protocol. */
  ghost predicate Reachable(store: Store) {
    && (forall c: Content, key {:trigger MappingFromRun(store, MappingIn(store, c, key))} ::
          MappingFromRun(store, MappingIn(store, c, key)))
    && (exists steps :: Q.Run(steps).holdings == store.sequence)
  }

  ghost predicate MappingFromRun(store: Store, m: P.Mapping) {
    exists ops :: P.Legal(ops) && P.Run(ops).m == m && P.Run(ops).live == store.live
  }

  // ----- uniqueness -----

  lemma SiblingPrefixesDiffer(store: Store, container: Content, key: P.TypeKey, i: int, j: int)
    requires Reachable(store) && i in store.live && j in store.live
    requires i in MappingIn(store, container, key).prefix && j in MappingIn(store, container, key).prefix
    requires StoredPrefix(store, container, key, i) == StoredPrefix(store, container, key, j)
    ensures i == j
  {
    var m := MappingIn(store, container, key);
    assert MappingFromRun(store, m);
    var ops :| P.Legal(ops) && P.Run(ops).m == m && P.Run(ops).live == store.live;
    P.RunKeepsPrefixesUnique(ops);
  }

  lemma {:induction false} NoDossierAbove(store: Store, c: Content)
    requires WellPlaced(c) && (c.Site? || c.RepositoryRoot? || c.RepositoryFolder?)
    ensures PathParts(store, c, "dossier") == []
    ensures PathParts(store, c, "repository") == [] <==> !c.RepositoryFolder?
  {
    if !c.Site? { NoDossierAbove(store, c.parent); }
  }

  lemma LastPart(store: Store, c: Content, key: string)
    requires !c.Site? && RefType(c) == key
    ensures PathParts(store, c, key) == PathParts(store, c.parent, key) + [LocalNumber(store, c)]
  {
  }

  lemma SplitLast<T>(a: seq<T>, x: T, b: seq<T>, y: T)
    requires a + [x] == b + [y]
    ensures a == b && x == y
  {
    assert |a + [x]| == |b + [y]|;
    assert a == (a + [x])[..|a|] && b == (b + [y])[..|b|];
    assert x == (a + [x])[|a|] && y == (b + [y])[|b|];
  }

  /** Equal parts: the same kind of object, with equal parts one level up and equal local numbers. */
  lemma StepUp(store: Store, a: Content, b: Content)
    requires WellPlaced(a) && WellPlaced(b)
    requires a.RepositoryFolder? || a.Dossier?
    requires b.RepositoryRoot? || b.RepositoryFolder? || b.Dossier?
    requires PathParts(store, a, "repository") == PathParts(store, b, "repository")
    requires PathParts(store, a, "dossier") == PathParts(store, b, "dossier")
    ensures a.Dossier? <==> b.Dossier?
    ensures a.RepositoryFolder? <==> b.RepositoryFolder?
    ensures LocalNumber(store, a) == LocalNumber(store, b)
    ensures PathParts(store, a.parent, "repository") == PathParts(store, b.parent, "repository")
    ensures PathParts(store, a.parent, "dossier") == PathParts(store, b.parent, "dossier")
  {
    if !a.Dossier? { NoDossierAbove(store, a); } else { LastPart(store, a, "dossier"); }
    if !b.Dossier? { NoDossierAbove(store, b); } else { LastPart(store, b, "dossier"); }
    var key := RefType(a);
    LastPart(store, a, key);
    LastPart(store, b, key);
    SplitLast(PathParts(store, a.parent, key), LocalNumber(store, a),
              PathParts(store, b.parent, key), LocalNumber(store, b));
    var other := if a.Dossier? then "repository" else "dossier";
    OtherPart(store, a, other);
    OtherPart(store, b, other);
  }

  lemma OtherPart(store: Store, c: Content, key: string)
    requires !c.Site? && RefType(c) != key
    ensures PathParts(store, c, key) == PathParts(store, c.parent, key)
  {
  }

  lemma SameParentSameNumber(f: Formatter, store: Store, a: Content, b: Content)
    requires Reachable(store) && Numbered(f, store, a) && Numbered(f, store, b)
    requires (a.RepositoryFolder? && b.RepositoryFolder?) || (a.Dossier? && b.Dossier?)
    requires a.parent == b.parent && LocalNumber(store, a) == LocalNumber(store, b)
    ensures a == b
  {
    SiblingPrefixesDiffer(store, a.parent, if a.Dossier? then P.DossierKey else P.RepositoryFolderKey, a.id, b.id);
  }

  /** Folders and dossiers under one root are determined by their repository and dossier parts. */
  lemma {:induction false} PathDetermines(f: Formatter, store: Store, a: Content, b: Content)
    requires Reachable(store) && WellPlaced(a) && WellPlaced(b) && Numbered(f, store, a) && Numbered(f, store, b)
    requires a.RepositoryRoot? || a.RepositoryFolder? || a.Dossier?
    requires b.RepositoryRoot? || b.RepositoryFolder? || b.Dossier?
    requires RootOf(a) == RootOf(b)
    requires PathParts(store, a, "repository") == PathParts(store, b, "repository")
    requires PathParts(store, a, "dossier") == PathParts(store, b, "dossier")
    ensures a == b
  {
    if a.RepositoryRoot? {
      NoDossierAbove(store, a);
      if b.Dossier? { LastPart(store, b, "dossier"); } else { NoDossierAbove(store, b); }
    } else {
      StepUp(store, a, b);
      PathDetermines(f, store, a.parent, b.parent);
      SameParentSameNumber(f, store, a, b);
    }
  }

  lemma {:induction false} PathIsSeparable(f: Formatter, store: Store, c: Content, key: string)
    requires WellPlaced(c) && Numbered(f, store, c) && !c.Document?
    requires key in {"repository", "dossier", "document"}
    ensures AllSeparable(f, PathParts(store, c, key))
    ensures key == "document" ==> PathParts(store, c, key) == []
  {
    if !c.Site? { PathIsSeparable(f, store, c.parent, key); }
  }

  lemma {:induction false} OneSite(store: Store, c: Content)
    requires WellPlaced(c)
    ensures PathParts(store, c, "site") == [store.abbreviation]
  {
    if !c.Site? { OneSite(store, c.parent); }
  }

  lemma {:induction false} InsideDossier(store: Store, c: Content)
    requires WellPlaced(c) && (c.Dossier? || c.Other? || c.Document?)
    ensures PathParts(store, c, "dossier") != []
  {
    if !c.Dossier? { InsideDossier(store, c.parent); }
  }

  predicate Addressable(c: Content) { c.RepositoryFolder? || c.Dossier? || c.Document? }

  lemma DocumentNumberIsDecimal(f: Formatter, store: Store, c: Content)
    requires c.Document? && Reachable(store) && Numbered(f, store, c)
    ensures LocalNumber(store, c) == Decimal(store.sequence[Q.Content(c.id, DOCUMENT_KEY)])
    ensures Separable(f, LocalNumber(store, c)) && G.Without(LocalNumber(store, c), '.')
  {
    var obj := Q.Content(c.id, DOCUMENT_KEY);
    var steps :| Q.Run(steps).holdings == store.sequence;
    var s := Q.Run(steps);
    Q.RunKeepsInv(steps);
    Q.NumbersUnique(steps);
    assert Q.Issue(obj, s.holdings[obj]) in s.issued;
    var i :| 0 <= i < |s.issued| && s.issued[i] == Q.Issue(obj, s.holdings[obj]);
    G.DecimalWithout(store.sequence[obj], '.');
    G.DecimalWithout(store.sequence[obj], Marker(f));
  }

  lemma DocumentNumbersDiffer(f: Formatter, store: Store, a: Content, b: Content)
    requires Reachable(store) && a.Document? && b.Document? && Numbered(f, store, a) && Numbered(f, store, b)
    requires LocalNumber(store, a) == LocalNumber(store, b)
    ensures a.id == b.id
  {
    var x, y := Q.Content(a.id, DOCUMENT_KEY), Q.Content(b.id, DOCUMENT_KEY);
    DocumentNumberIsDecimal(f, store, a);
    DocumentNumberIsDecimal(f, store, b);
    ValueOfDecimal(store.sequence[x]);
    ValueOfDecimal(store.sequence[y]);
    var steps :| Q.Run(steps).holdings == store.sequence;
    assert Q.Holds(Q.Run(steps), x, store.sequence[x]) && Q.Holds(Q.Run(steps), y, store.sequence[x]);
    Q.HoldersUnique(steps, x, y, store.sequence[x]);
  }

  /** The parts of an addressable object can be told apart in print. */
  ghost predicate HasParts(f: Formatter, store: Store, c: Content) {
    && AllSeparable(f, PathParts(store, c, "repository")) && AllSeparable(f, PathParts(store, c, "dossier"))
    && PathParts(store, c, "document") == (if c.Document? then [LocalNumber(store, c)] else [])
    && (c.Document? ==> Separable(f, LocalNumber(store, c)) && G.Without(LocalNumber(store, c), '.'))
    && (c.Document? ==> PathParts(store, c, "dossier") != [])
  }

  lemma AddressableHasParts(f: Formatter, store: Store, c: Content)
    requires Reachable(store) && WellPlaced(c) && Numbered(f, store, c) && Addressable(c)
    ensures HasParts(f, store, c)
  {
    var above := if c.Document? then c.parent else c;
    PathIsSeparable(f, store, above, "repository");
    PathIsSeparable(f, store, above, "dossier");
    PathIsSeparable(f, store, above, "document");
    if c.Document? {
      InsideDossier(store, c);
      DocumentNumberIsDecimal(f, store, c);
    }
  }

  lemma NumbersSeparated(f: Formatter, store: Store, c: Content)
    requires HasParts(f, store, c) && WellPlaced(c)
    ensures Separated(f, NumbersOf(store, c))
    ensures f.Base(NumbersOf(store, c)) == if f.hasClientId then store.abbreviation else ""
  {
    PartsOfNumbers(store, c);
    OneSite(store, c);
    RepositoryWithoutMarker(f, NumbersOf(store, c));
  }

  /** The pieces between the dots that are printed of an object's repository and dossier parts, and its
      document parts. */
  ghost predicate SameParts(f: Formatter, store: Store, a: Content, b: Content) {
    && Pieces(PrintedParts(f, PathParts(store, a, "repository")))
       == Pieces(PrintedParts(f, PathParts(store, b, "repository")))
    && Pieces(PathParts(store, a, "dossier")) == Pieces(PathParts(store, b, "dossier"))
    && PathParts(store, a, "document") == PathParts(store, b, "document")
  }

  lemma ItemsAre(f: Formatter, store: Store, c: Content)
    requires HasParts(f, store, c)
    ensures Items(NumbersOf(store, c))
         == Present(Pieces(PathParts(store, c, "dossier"))) + Present(PathParts(store, c, "document"))
    ensures PathParts(store, c, "document") != [] ==> PathParts(store, c, "dossier") != []
  {
    PartsOfNumbers(store, c);
    PiecesOfDotless(PathParts(store, c, "document"));
  }

  lemma PresentPair(d: seq<string>, m: seq<string>, d': seq<string>, m': seq<string>)
    requires (m != [] ==> d != []) && (m' != [] ==> d' != [])
    ensures Present(d) + Present(m) == Present(d') + Present(m') <==> d == d' && m == m'
  {
    var x, y := Present(d) + Present(m), Present(d') + Present(m');
    if x == y {
      assert |x| == |y|;
      assert x != [] ==> x[0] == d && y[0] == d';
      assert |x| > 1 ==> x[1] == m && y[1] == m';
    }
  }

  lemma ItemsAreParts(f: Formatter, store: Store, a: Content, b: Content)
    requires HasParts(f, store, a) && HasParts(f, store, b)
    ensures Items(NumbersOf(store, a)) == Items(NumbersOf(store, b))
       <==> Pieces(PathParts(store, a, "dossier")) == Pieces(PathParts(store, b, "dossier"))
            && PathParts(store, a, "document") == PathParts(store, b, "document")
  {
    ItemsAre(f, store, a);
    ItemsAre(f, store, b);
    PresentPair(Pieces(PathParts(store, a, "dossier")), PathParts(store, a, "document"),
                Pieces(PathParts(store, b, "dossier")), PathParts(store, b, "document"));
  }

  ghost predicate Comparable(f: Formatter, store: Store, a: Content, b: Content) {
    && WellPlaced(a) && Numbered(f, store, a) && Addressable(a)
    && WellPlaced(b) && Numbered(f, store, b) && Addressable(b)
    && RootOf(a) == RootOf(b)
  }

  /** With any of the four formatters, and whatever dots there are in prefixes, two complete numbers are
      equal exactly when the same pieces are printed of both objects. */
  lemma CompleteNumbersEqualExactly(f: Formatter, store: Store, a: Content, b: Content)
    requires Reachable(store) && Comparable(f, store, a, b)
    ensures CompleteNumber(f, store, a) == CompleteNumber(f, store, b) <==> SameParts(f, store, a, b)
  {
    AddressableHasParts(f, store, a);
    AddressableHasParts(f, store, b);
    NumbersSeparated(f, store, a);
    NumbersSeparated(f, store, b);
    PartsOfNumbers(store, a);
    PartsOfNumbers(store, b);
    NumbersEqualExactly(f, NumbersOf(store, a), NumbersOf(store, b));
    ItemsAreParts(f, store, a, b);
  }

  /** No folder or dossier on the path has a dot in its prefix. */
  ghost predicate Undotted(store: Store, c: Content) {
    Dotless(PathParts(store, c, "repository")) && Dotless(PathParts(store, c, "dossier"))
  }

  /** Objects with the same parts are the same object. */
  lemma SamePathSameObject(f: Formatter, store: Store, a: Content, b: Content)
    requires Reachable(store) && Comparable(f, store, a, b)
    requires PathParts(store, a, "repository") == PathParts(store, b, "repository")
    requires PathParts(store, a, "dossier") == PathParts(store, b, "dossier")
    requires PathParts(store, a, "document") == PathParts(store, b, "document")
    ensures a.id == b.id && (!a.Document? ==> a == b)
  {
    AddressableHasParts(f, store, a);
    AddressableHasParts(f, store, b);
    SameKind(store, a, b);
    if a.Document? {
      DocumentNumbersDiffer(f, store, a, b);
    } else {
      PathDetermines(f, store, a, b);
    }
  }

  /** In the same repository folder objects that print alike are the same object. */
  lemma SameRepositorySameObject(f: Formatter, store: Store, a: Content, b: Content)
    requires Reachable(store) && Comparable(f, store, a, b) && SameParts(f, store, a, b)
    requires Undotted(store, a) && Undotted(store, b)
    requires PathParts(store, a, "repository") == PathParts(store, b, "repository")
    ensures a.id == b.id && (!a.Document? ==> a == b)
  {
    PiecesOfDotless(PathParts(store, a, "dossier"));
    PiecesOfDotless(PathParts(store, b, "dossier"));
    SamePathSameObject(f, store, a, b);
  }

  /** Two folders, dossiers or documents under one repository root that print the same dotted number
      are the same object, unless a prefix has a dot inside. */
  lemma CompleteNumbersUnique(f: Formatter, store: Store, a: Content, b: Content)
    requires !f.isGroupedByThree && Reachable(store) && Comparable(f, store, a, b)
    requires Undotted(store, a) && Undotted(store, b)
    ensures CompleteNumber(f, store, a) == CompleteNumber(f, store, b) ==> a.id == b.id && (!a.Document? ==> a == b)
  {
    CompleteNumbersEqualExactly(f, store, a, b);
    if SameParts(f, store, a, b) {
      PiecesOfDotless(PathParts(store, a, "repository"));
      PiecesOfDotless(PathParts(store, b, "repository"));
      SameRepositorySameObject(f, store, a, b);
    }
  }

  lemma SameGroups(f: Formatter, store: Store, a: Content, b: Content)
    requires f.isGroupedByThree && Undotted(store, a) && Undotted(store, b) && SameParts(f, store, a, b)
    ensures Groups(PathParts(store, a, "repository")) == Groups(PathParts(store, b, "repository"))
  {
    var p, q := PathParts(store, a, "repository"), PathParts(store, b, "repository");
    GroupedRepositoryExactly(p, q);
  }

  /** Grouped by three, they have the same groups; and they are the same object as soon as their
      prefixes are equally long on each level, in particular in the same repository folder. */
  lemma GroupedNumbersUnique(f: Formatter, store: Store, a: Content, b: Content)
    requires f.isGroupedByThree && Reachable(store) && Comparable(f, store, a, b)
    requires Undotted(store, a) && Undotted(store, b)
    ensures var p, q := PathParts(store, a, "repository"), PathParts(store, b, "repository");
      CompleteNumber(f, store, a) == CompleteNumber(f, store, b) ==>
        Groups(p) == Groups(q) && (SameWidths(p, q) ==> a.id == b.id && (!a.Document? ==> a == b))
  {
    var p, q := PathParts(store, a, "repository"), PathParts(store, b, "repository");
    CompleteNumbersEqualExactly(f, store, a, b);
    if SameParts(f, store, a, b) {
      SameGroups(f, store, a, b);
      if SameWidths(p, q) {
        SameWidthsDetermine(p, q);
        SameRepositorySameObject(f, store, a, b);
      }
    }
  }

  lemma SameKind(store: Store, a: Content, b: Content)
    requires PathParts(store, a, "document") == if a.Document? then [LocalNumber(store, a)] else []
    requires PathParts(store, b, "document") == if b.Document? then [LocalNumber(store, b)] else []
    requires PathParts(store, a, "document") == PathParts(store, b, "document")
    ensures a.Document? <==> b.Document?
    ensures a.Document? ==> LocalNumber(store, a) == LocalNumber(store, b)
  {
    assert a.Document? && b.Document? ==> [LocalNumber(store, a)][0] == [LocalNumber(store, b)][0];
  }
}
