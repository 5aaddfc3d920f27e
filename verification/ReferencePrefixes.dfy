/** Prefixes of the children of one container: which child has which, and which are in use. */
module ReferencePrefixes {
  import opened Collections
  import opened StableSorting
  import opened Decimals
  import opened NaturalOrder
  import opened NextNumber

  datatype TypeKey = DossierKey | RepositoryFolderKey

  /** A content object: its intid, and whether it is a dossier. */
  datatype Child = Child(intid: int, isDossier: bool)

  /** `child`: the object last given each number. `prefix`: the current number of each object. */
  datatype Mapping = Mapping(child: map<string, int>, prefix: map<int, string>)

  const EMPTY := Mapping(map[], map[])

  function KeyOf(obj: Child): TypeKey {
    if obj.isDossier then DossierKey else RepositoryFolderKey
  }

  /** `keys` lists the numbers ever given and not freed, in the order of the dictionary. */
  ghost predicate Lists(keys: seq<string>, m: Mapping) {
    NoDuplicates(keys) && forall p :: p in keys <==> p in m.child
  }

  /** The default for an object: the first number, its own old number, or the next one. An intid of 0
      is taken for no intid at all. */
  function DefaultNumber(m: Mapping, intid: int, first: string, keys: seq<string>): string {
    if keys == [] then first
    else if intid != 0 && intid in m.prefix then m.prefix[intid]
    else Successor(Greatest(keys))
  }

  function NumberOf(m: Mapping, intid: int): Option<string> {
    if intid in m.prefix then Some(m.prefix[intid]) else None
  }

  function Assign(m: Mapping, intid: int, number: string): Mapping {
    Mapping(m.child[number := intid], m.prefix[intid := number])
  }

  predicate IsValidNumber(m: Mapping, number: string, obj: Option<int>) {
    number !in m.child || (obj.Some? && m.child[number] == obj.value)
  }

  predicate IsPrefixUsed(m: Mapping, prefix: string, live: set<int>) {
    prefix in m.child && m.child[prefix] in live && exists i :: i in m.prefix && m.prefix[i] == prefix
  }

  datatype Row = Row(prefix: string, active: bool)

  class ReferenceNumberPrefixAdapter {
    var mappings: map<TypeKey, Mapping>
    const startingPoint: string

    constructor (startingPoint: string)
      ensures mappings == map[] && this.startingPoint == startingPoint
    {
      mappings := map[];
      this.startingPoint := startingPoint;
    }

    function MappingFor(key: TypeKey): Mapping
      reads this
    {
      if key in mappings then mappings[key] else EMPTY
    }

    function FirstNumber(key: TypeKey): string {
      if key == DossierKey then "1" else startingPoint
    }

    method GetNextNumber(obj: Child, keys: seq<string>) returns (number: string)
      requires Lists(keys, MappingFor(KeyOf(obj)))
      ensures number == DefaultNumber(MappingFor(KeyOf(obj)), obj.intid, FirstNumber(KeyOf(obj)), keys)
      ensures keys == [] ==> number == if obj.isDossier then "1" else startingPoint
    {
      var m := MappingFor(KeyOf(obj));
      if keys == [] {
        number := FirstNumber(KeyOf(obj));
      } else if obj.intid != 0 && obj.intid in m.prefix {
        number := m.prefix[obj.intid];
      } else {
        var prefixesInUse := keys;
        SortLength(prefixesInUse, NaturalLeq);
        prefixesInUse := StableSort(prefixesInUse, NaturalLeq);
        var lastnumber := prefixesInUse[|prefixesInUse| - 1];
        number := ComputeSuccessor(lastnumber);
      }
    }

    /** Stores the number in both mappings of the object's own type; no number, or an empty one, asks
        for the default. */
    method SetNumber(obj: Child, number: Option<string>, keys: seq<string>) returns (stored: string)
      requires Lists(keys, MappingFor(KeyOf(obj)))
      modifies this
      ensures var m := old(MappingFor(KeyOf(obj)));
        && stored == (if number.Some? && number.value != "" then number.value
                      else DefaultNumber(m, obj.intid, FirstNumber(KeyOf(obj)), keys))
        && mappings == old(mappings)[KeyOf(obj) := Assign(m, obj.intid, stored)]
      ensures obj.isDossier ==> MappingFor(RepositoryFolderKey) == old(MappingFor(RepositoryFolderKey))
      ensures !obj.isDossier ==> MappingFor(DossierKey) == old(MappingFor(DossierKey))
    {
      if number.Some? && number.value != "" {
        stored := number.value;
      } else {
        stored := GetNextNumber(obj, keys);
      }
      var key := KeyOf(obj);
      var m := MappingFor(key);
      m := m.(prefix := m.prefix[obj.intid := stored]);
      m := m.(child := m.child[stored := obj.intid]);
      mappings := mappings[key := m];
    }

    method GetNumber(obj: Child) returns (number: Option<string>)
      ensures number == NumberOf(MappingFor(KeyOf(obj)), obj.intid)
    {
      var m := MappingFor(KeyOf(obj));
      number := if obj.intid in m.prefix then Some(m.prefix[obj.intid]) else None;
    }

    /** Frees a repository number unless a live object is using it; dossier numbers are untouched. */
    method FreeNumber(prefix: string, live: set<int>) returns (ok: bool)
      modifies this
      ensures var m := old(MappingFor(RepositoryFolderKey));
        && ok == !IsPrefixUsed(m, prefix, live)
        && (!ok || prefix !in m.child ==> mappings == old(mappings))
        && (ok && prefix in m.child ==>
              mappings == old(mappings)[RepositoryFolderKey := m.(child := m.child - {prefix})])
    {
      var m := MappingFor(RepositoryFolderKey);
      if IsPrefixUsed(m, prefix, live) {
        return false;
      }
      if prefix in m.child {
        mappings := mappings[RepositoryFolderKey := m.(child := m.child - {prefix})];
      }
      return true;
    }

    /** One row per number; active when the object last given it is live and still has it. */
    method GetNumberMapping(keys: seq<string>, live: set<int>) returns (rows: seq<Row>)
      requires Lists(keys, MappingFor(RepositoryFolderKey))
      requires forall p :: p in MappingFor(RepositoryFolderKey).child ==>
        MappingFor(RepositoryFolderKey).child[p] in MappingFor(RepositoryFolderKey).prefix
      ensures rows == StableSort(RowsOf(MappingFor(RepositoryFolderKey), keys, live), RowLeq)
    {
      var m := MappingFor(RepositoryFolderKey);
      rows := [];
      assert keys[..0] == [];
      for i := 0 to |keys|
        invariant rows == RowsOf(m, keys[..i], live)
      {
        assert keys[..i + 1][..i] == keys[..i];
        assert keys[i] in keys;
        var intid := m.child[keys[i]];
        var active := false;
        if intid in live {
          active := m.prefix[intid] == keys[i];
        }
        rows := rows + [Row(keys[i], active)];
      }
      assert keys[..|keys|] == keys;
      rows := StableSort(rows, RowLeq);
    }
  }

  function RowsOf(m: Mapping, keys: seq<string>, live: set<int>): (rows: seq<Row>)
    requires forall p :: p in keys ==> p in m.child && m.child[p] in m.prefix
    ensures |rows| == |keys|
    ensures forall i :: 0 <= i < |keys| ==>
      rows[i] == Row(keys[i], m.child[keys[i]] in live && m.prefix[m.child[keys[i]]] == keys[i])
  {
    if keys == [] then []
    else
      var p := keys[|keys| - 1];
      RowsOf(m, keys[..|keys| - 1], live) + [Row(p, m.child[p] in live && m.prefix[m.child[p]] == p)]
  }

  /** Rows are sorted by number where the prefix is one, and those come before all others. */
  predicate RowLeq(a: Row, b: Row) {
    var m, n := a.prefix != "" && AllDigits(a.prefix), b.prefix != "" && AllDigits(b.prefix);
    if m && n then ValueOf(a.prefix) <= ValueOf(b.prefix)
    else if m then true
    else if n then false
    else TextLeq(a.prefix, b.prefix)
  }

  lemma RowOrderTotal()
    ensures TotalPreorder(RowLeq)
  {
    assert StrictTotalOrder(CharLess);
    forall x, y ensures RowLeq(x, y) || RowLeq(y, x) { LexTotal(x.prefix, y.prefix, CharLess); }
    forall x, y, z | RowLeq(x, y) && RowLeq(y, z) ensures RowLeq(x, z) {
      if TextLeq(x.prefix, y.prefix) && TextLeq(y.prefix, z.prefix) {
        LexTransitive(x.prefix, y.prefix, z.prefix, CharLess);
      }
    }
  }

  // ----- runs -----

  /** A container's mapping together with the live objects of the site; `known` are all intids ever
      given out, which are never given out again. */
  datatype State = State(m: Mapping, live: set<int>, known: set<int>)

  const START := State(EMPTY, {}, {})

  datatype Operation =
    | Create(intid: int)
    | Delete(intid: int)
    | SetValid(intid: int, number: string)
    | SetDefault(intid: int, first: string, keys: seq<string>)
    | Free(prefix: string)

  /** The default behind a greatest number that cannot be continued: the whole number one further, or
      nothing when there is no digit. */
  function Stopgap(last: string): string {
    match ParseInt(last) case Some(n) => DecimalInt(n + 1) case None => ""
  }

  /** A default is the first number, recycled, or continues the greatest one; or it happens to be free. */
  ghost predicate DefaultIsSafe(m: Mapping, intid: int, keys: seq<string>) {
    || keys == [] || (intid != 0 && intid in m.prefix) || Continuable(Greatest(keys))
    || IsValidNumber(m, Stopgap(Greatest(keys)), Some(intid))
  }

  ghost predicate Enabled(s: State, op: Operation) {
    match op
    case Create(i) => i !in s.known
    case Delete(i) => i in s.live
    case SetValid(i, number) => i in s.live && IsValidNumber(s.m, number, Some(i))
    case SetDefault(i, first, keys) =>
      i in s.live && Lists(keys, s.m) && IsValidNumber(s.m, DefaultNumber(s.m, i, first, keys), Some(i))
    case Free(prefix) => true
  }

  function Apply(s: State, op: Operation): State {
    match op
    case Create(i) => s.(live := s.live + {i}, known := s.known + {i})
    case Delete(i) => s.(live := s.live - {i})
    case SetValid(i, number) => s.(m := Assign(s.m, i, number))
    case SetDefault(i, first, keys) => s.(m := Assign(s.m, i, DefaultNumber(s.m, i, first, keys)))
    case Free(prefix) =>
      if IsPrefixUsed(s.m, prefix, s.live) then s else s.(m := s.m.(child := s.m.child - {prefix}))
  }

  function Run(ops: seq<Operation>): State {
    if ops == [] then START else Apply(Run(ops[..|ops| - 1]), ops[|ops| - 1])
  }

  ghost predicate Legal(ops: seq<Operation>) {
    forall k :: 0 <= k < |ops| ==> Enabled(Run(ops[..k]), ops[k])
  }

  /** Each live object with a number is the one its number leads back to. */
  ghost predicate Consistent(m: Mapping, live: set<int>) {
    forall i :: i in live && i in m.prefix ==> m.prefix[i] in m.child && m.child[m.prefix[i]] == i
  }

  ghost predicate Inv(s: State) {
    && Consistent(s.m, s.live)
    && (forall p :: p in s.m.child ==> s.m.child[p] in s.m.prefix)
    && s.live <= s.known && s.m.prefix.Keys <= s.known
  }

  /** Giving an object a number keeps the mappings consistent exactly when no other live object has
      that number. */
  lemma AssignKeepsConsistentExactly(m: Mapping, live: set<int>, intid: int, number: string)
    requires Consistent(m, live) && intid in live
    ensures Consistent(Assign(m, intid, number), live)
       <==> forall j :: j in live && j in m.prefix && j != intid ==> m.prefix[j] != number
  {
    var m' := Assign(m, intid, number);
    if j :| j in live && j in m.prefix && j != intid && m.prefix[j] == number {
      assert m'.prefix[j] == number && m'.child[number] == intid;
    }
  }

  /** The default is valid exactly when it is the first number, recycled, continues the greatest one, or
      is the stopgap and free. */
  lemma DefaultNumberIsValid(m: Mapping, live: set<int>, intid: int, first: string, keys: seq<string>)
    requires Consistent(m, live) && intid in live && Lists(keys, m)
    ensures IsValidNumber(m, DefaultNumber(m, intid, first, keys), Some(intid)) <==> DefaultIsSafe(m, intid, keys)
  {
    if keys != [] && !(intid != 0 && intid in m.prefix) {
      SuccessorIsFreshExactly(keys);
    }
  }

  lemma StepKeepsInv(s: State, op: Operation)
    requires Inv(s) && Enabled(s, op)
    ensures Inv(Apply(s, op))
  {
    match op
    case SetValid(i, number) =>
      AssignKeepsConsistentExactly(s.m, s.live, i, number);
    case SetDefault(i, first, keys) =>
      var number := DefaultNumber(s.m, i, first, keys);
      AssignKeepsConsistentExactly(s.m, s.live, i, number);
    case Free(prefix) =>
    case Create(i) =>
    case Delete(i) =>
  }

  /** Over every legal run the mappings stay consistent, so live objects have different numbers. */
  lemma {:induction false} RunKeepsPrefixesUnique(ops: seq<Operation>)
    requires Legal(ops)
    ensures Inv(Run(ops))
    ensures var s := Run(ops);
      forall i, j :: i in s.live && j in s.live && i in s.m.prefix && j in s.m.prefix ==>
        s.m.prefix[i] == s.m.prefix[j] ==> i == j
  {
    if ops != [] {
      var init := ops[..|ops| - 1];
      forall k | 0 <= k < |init| ensures Enabled(Run(init[..k]), init[k]) {
        assert init[..k] == ops[..k] && init[k] == ops[k];
      }
      RunKeepsPrefixesUnique(init);
      StepKeepsInv(Run(init), ops[|ops| - 1]);
    }
  }

  /** The last number given to an object in a run. */
  function LastNumber(ops: seq<Operation>, intid: int): Option<string> {
    if ops == [] then None
    else
      var before := ops[..|ops| - 1];
      match ops[|ops| - 1]
      case SetValid(i, number) => if i == intid then Some(number) else LastNumber(before, intid)
      case SetDefault(i, first, keys) =>
        if i == intid then Some(DefaultNumber(Run(before).m, i, first, keys)) else LastNumber(before, intid)
      case _ => LastNumber(before, intid)
  }

  /** The number read for an object is the last one given to it, whatever happened to others, to itself,
      or to the number in between. */
  lemma {:induction false} ReadsLastNumber(ops: seq<Operation>, intid: int)
    ensures NumberOf(Run(ops).m, intid) == LastNumber(ops, intid)
  {
    if ops != [] { ReadsLastNumber(ops[..|ops| - 1], intid); }
  }

  /** An object that comes back gets its old number again, and nothing else changes. */
  lemma MovingBackRecycles(s: State, intid: int, first: string, keys: seq<string>)
    requires Inv(s) && intid in s.live && intid in s.m.prefix && intid != 0 && Lists(keys, s.m)
    ensures DefaultNumber(s.m, intid, first, keys) == s.m.prefix[intid]
    ensures Apply(s, SetDefault(intid, first, keys)) == s
  {
    assert s.m.prefix[intid] in keys;
    var number := s.m.prefix[intid];
    assert s.m.child[number := intid] == s.m.child;
    assert s.m.prefix[intid := number] == s.m.prefix;
  }

  /** The number of a live object cannot be freed, and freeing another one leaves it alone. */
  lemma LiveNumberStays(s: State, intid: int, prefix: string)
    requires Inv(s) && intid in s.live && intid in s.m.prefix
    ensures IsPrefixUsed(s.m, s.m.prefix[intid], s.live)
    ensures var s' := Apply(s, Free(prefix));
      s'.m.prefix == s.m.prefix && s.m.prefix[intid] in s'.m.child && s'.m.child[s.m.prefix[intid]] == intid
  {
  }

  /** Freeing takes a number out exactly unless the object last given it is live and some object has the
      number. So the number a live folder was renamed away from can be freed. */
  lemma FreesExactly(s: State, prefix: string)
    ensures Apply(s, Free(prefix)).m.prefix == s.m.prefix && Apply(s, Free(prefix)).live == s.live
    ensures forall p :: p in Apply(s, Free(prefix)).m.child <==>
      p in s.m.child && (p == prefix ==> s.m.child[p] in s.live && SomeoneHas(s.m, p))
    ensures forall p :: p in Apply(s, Free(prefix)).m.child ==> Apply(s, Free(prefix)).m.child[p] == s.m.child[p]
  {
  }

  ghost predicate SomeoneHas(m: Mapping, prefix: string) {
    exists i :: i in m.prefix && m.prefix[i] == prefix
  }

  /** An intid of 0 is taken for no intid: its number is not recycled. */
  lemma ZeroIsNotRecycled(m: Mapping, first: string, keys: seq<string>)
    requires keys != []
    ensures DefaultNumber(m, 0, first, keys) == Successor(Greatest(keys))
  {
  }

  /** The listing is in numeric order: rows of digits by their value, in front of all others. */
  lemma ListingIsNumeric(rows: seq<Row>, i: nat, j: nat)
    requires Sorted(rows, RowLeq) && i < j < |rows| && rows[j].prefix != "" && AllDigits(rows[j].prefix)
    ensures rows[i].prefix != "" && AllDigits(rows[i].prefix) && ValueOf(rows[i].prefix) <= ValueOf(rows[j].prefix)
  {
    assert RowLeq(rows[i], rows[j]);
  }

  /** A number whose object is gone can be freed, after which it is valid for anyone. */
  lemma DeletedNumberCanBeFreed(s: State, prefix: string, anyone: int)
    requires prefix in s.m.child && s.m.child[prefix] !in s.live
    ensures IsValidNumber(Apply(s, Free(prefix)).m, prefix, Some(anyone))
  {
  }

  /** Number `p` is the current number of some live object. */
  ghost predicate CurrentNumber(s: State, p: string) {
    exists i :: i in s.live && i in s.m.prefix && s.m.prefix[i] == p
  }

  lemma RowsShowLiveObjects(s: State, keys: seq<string>, k: nat)
    requires Inv(s) && Lists(keys, s.m) && k < |keys|
    ensures RowsOf(s.m, keys, s.live)[k].active <==> CurrentNumber(s, keys[k])
  {
    var p := keys[k];
    assert p in keys;
    assert RowsOf(s.m, keys, s.live)[k] == Row(p, s.m.child[p] in s.live && s.m.prefix[s.m.child[p]] == p);
    CurrentNumberMeans(s, p);
  }

  lemma CurrentNumberMeans(s: State, p: string)
    requires Inv(s) && p in s.m.child
    ensures CurrentNumber(s, p) <==> s.m.child[p] in s.live && s.m.prefix[s.m.child[p]] == p
  {
    if CurrentNumber(s, p) {
      var i :| i in s.live && i in s.m.prefix && s.m.prefix[i] == p;
      assert s.m.child[p] == i;
    }
    var last := s.m.child[p];
    assert last in s.m.prefix;
    if last in s.live && s.m.prefix[last] == p {
      assert CurrentNumber(s, p);
    }
  }

  lemma {:induction false} NoDuplicatesOnce<T>(s: seq<T>, x: T)
    requires NoDuplicates(s)
    ensures multiset(s)[x] == if x in s then 1 else 0
  {
    if s != [] {
      assert s == [s[0]] + s[1..];
      NoDuplicatesOnce(s[1..], x);
      if s[0] == x {
        assert forall k :: 0 <= k < |s[1..]| ==> s[1..][k] == s[k + 1];
      }
    }
  }

  /** The sorted listing has, for each number, exactly one row, and that row is active exactly when the
      number is the current one of a live object. */
  lemma ListingShowsLiveObjects(s: State, keys: seq<string>, p: string)
    requires Inv(s) && Lists(keys, s.m) && p in s.m.child
    ensures var rows := StableSort(RowsOf(s.m, keys, s.live), RowLeq);
      && Sorted(rows, RowLeq)
      && multiset(rows)[Row(p, CurrentNumber(s, p))] == 1
      && multiset(rows)[Row(p, !CurrentNumber(s, p))] == 0
  {
    var unsorted := RowsOf(s.m, keys, s.live);
    RowOrderTotal();
    StableSortCorrect(unsorted, RowLeq);
    var k :| 0 <= k < |keys| && keys[k] == p;
    RowsShowLiveObjects(s, keys, k);
    NoDuplicatesOnce(unsorted, Row(p, true));
    NoDuplicatesOnce(unsorted, Row(p, false));
  }

  /** Every live object's number is listed, so the listing has one active row per live object. */
  lemma LiveNumbersAreListed(s: State, intid: int)
    requires Inv(s) && intid in s.live && intid in s.m.prefix
    ensures s.m.prefix[intid] in s.m.child && CurrentNumber(s, s.m.prefix[intid])
    ensures forall j :: j in s.live && j in s.m.prefix && s.m.prefix[j] == s.m.prefix[intid] ==> j == intid
  {
  }

  // ----- where the default breaks uniqueness -----

  /** Without any digit among the prefixes every default is the empty number, so the second object
      gets the number of the first. */
  lemma TextPrefixesCollide()
    ensures var keys, s0 := ["A"], State(Mapping(map["A" := 1], map[1 := "A"]), {1, 2, 3}, {1, 2, 3});
      var s1 := Apply(s0, SetDefault(2, "1", keys));
      var s2 := Apply(s1, SetDefault(3, "1", ["", "A"]));
      && Inv(s0) && Enabled(s0, SetDefault(2, "1", keys)) && Inv(s1) && Lists(["", "A"], s1.m)
      && s2.m.prefix[2] == s2.m.prefix[3] && !Consistent(s2.m, s2.live)
  {
    var s0 := State(Mapping(map["A" := 1], map[1 := "A"]), {1, 2, 3}, {1, 2, 3});
    assert Successor("A") == "" by {
      assert ParseInt("A") == None by { assert Strip("A") == "A"; assert !IsDigit("A"[0]); }
      assert LastDigitEnd("A") == 0;
    }
    assert StableSort(["A"], NaturalLeq) == ["A"];
    GreatestIsMaximal(["", "A"]);
    assert Greatest(["", "A"]) == "A" by {
      assert Chunks("A")[0] == Text("A") && Chunks("")[0] == Text("");
      DifferentHeads("A", "");
      NaturalOrderTotal();
    }
    var s1 := Apply(s0, SetDefault(2, "1", ["A"]));
    assert s1.m == Mapping(map["A" := 1, "" := 2], map[1 := "A", 2 := ""]);
    var s2 := Apply(s1, SetDefault(3, "1", ["", "A"]));
    assert s2.m.child[""] == 3;
  }
}
