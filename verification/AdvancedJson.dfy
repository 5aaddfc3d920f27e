/** JSON with tagged objects for datetimes, UUIDs, sets and persistent mappings. */
module AdvancedJson {
  import opened Collections

  const TYPE_KEY := "_advancedjson_type"
  const VALUE_KEY := "_advancedjson_value"

  /** Points in time as microseconds: without a time zone, or local time with its offset from UTC. */
  datatype DateTime = Naive(local: int) | Aware(local: int, offset: int)

  function AsUtc(dt: DateTime): DateTime {
    match dt
    case Naive(_) => dt
    case Aware(local, offset) => Aware(local - offset, 0)
  }

  /** The hashable values. A byte string is Python 2's `str`. */
  datatype Atom =
    | Null
    | Bool(b: bool)
    | Num(n: int)
    | Text(s: string)
    | Bytes(s: string)
    | Uuid(id: int)
    | Date(dt: DateTime)

  /** A decoded dictionary has texts for keys; a persistent mapping can have any hashable keys. */
  datatype Value =
    | Scalar(a: Atom)
    | List(items: seq<Value>)
    | Dict(m: map<string, Value>)
    | PersistentMapping(pm: map<Atom, Value>)
    | Set(elements: set<Atom>)

  datatype Json =
    | JNull
    | JBool(b: bool)
    | JNum(n: int)
    | JText(s: string)
    | JArray(items: seq<Json>)
    | JObject(m: map<string, Json>)

  /** What the encoder and decoder use from elsewhere: the texts of datetimes and UUIDs, and the orders
      in which a set and the keys of a mapping are iterated. */
  datatype Codec = Codec(
    isoformat: DateTime -> string,
    parseDate: string -> Option<DateTime>,
    uuidText: int -> string,
    parseUuid: string -> Option<int>,
    order: set<Atom> -> seq<Atom>,
    keyOrder: set<Atom> -> seq<Atom>)

  ghost predicate Faithful(c: Codec) {
    && (forall dt :: c.parseDate(c.isoformat(dt)) == Some(dt))
    && (forall id :: c.parseUuid(c.uuidText(id)) == Some(id))
    && (forall s, a :: a in c.order(s) <==> a in s)
    && (forall s, a :: a in c.keyOrder(s) <==> a in s)
  }

  function Tagged(tag: string, value: Json): Json {
    JObject(map[TYPE_KEY := JText(tag), VALUE_KEY := value])
  }

  function EncodeAtom(c: Codec, a: Atom): Json {
    match a
    case Null => JNull
    case Bool(b) => JBool(b)
    case Num(n) => JNum(n)
    case Text(s) => JText(s)
    case Bytes(s) => JText(s)
    case Uuid(id) => Tagged("UUID", JText(c.uuidText(id)))
    case Date(dt) => Tagged("datetime", JText(c.isoformat(dt)))
  }

  function EncodeAtoms(c: Codec, atoms: seq<Atom>): (r: seq<Json>)
    ensures |r| == |atoms| && forall i :: 0 <= i < |r| ==> r[i] == EncodeAtom(c, atoms[i])
  {
    if atoms == [] then [] else [EncodeAtom(c, atoms[0])] + EncodeAtoms(c, atoms[1..])
  }

  /** The keys of persistent mappings are texts, everywhere in the value. */
  predicate TextKeys(v: Value) {
    match v
    case Scalar(_) => true
    case List(items) => forall i :: 0 <= i < |items| ==> TextKeys(items[i])
    case Dict(m) => forall k :: k in m ==> TextKeys(m[k])
    case PersistentMapping(pm) => forall k :: k in pm ==> k.Text? && TextKeys(pm[k])
    case Set(_) => true
  }

  function Encode(c: Codec, v: Value): Json
    requires TextKeys(v)
    decreases v, 1
  {
    match v
    case Scalar(a) => EncodeAtom(c, a)
    case List(items) => JArray(seq(|items|, i requires 0 <= i < |items| => Encode(c, items[i])))
    case Dict(_) => JObject(EncodeDict(c, v))
    case PersistentMapping(_) => Tagged("PersistentMapping", JObject(EncodeMapping(c, v)))
    case Set(elements) => Tagged("set", JArray(EncodeAtoms(c, c.order(elements))))
  }

  function EncodeDict(c: Codec, v: Value): map<string, Json>
    requires v.Dict? && TextKeys(v)
    decreases v, 0
  {
    map k | k in v.m :: Encode(c, v.m[k])
  }

  function EncodeMapping(c: Codec, v: Value): map<string, Json>
    requires v.PersistentMapping? && TextKeys(v)
    decreases v, 0
  {
    map k | k in v.pm :: k.s := Encode(c, v.pm[k])
  }

  /** `encode` first refuses byte strings anywhere among the values. */
  function Dumps(c: Codec, v: Value): Option<Json>
    requires TextKeys(v)
  {
    if AllUnicode(v) then Some(Encode(c, v)) else None
  }

  predicate AllUnicode(v: Value) {
    match v
    case Scalar(a) => !a.Bytes?
    case List(items) => forall i :: 0 <= i < |items| ==> AllUnicode(items[i])
    case Dict(m) => forall k :: k in m ==> AllUnicode(m[k])
    case PersistentMapping(pm) => forall k :: k in pm ==> AllUnicode(pm[k])
    case Set(elements) => forall a :: a in elements ==> !a.Bytes?
  }

  // ----- decoding -----

  function TextSet(m: map<string, Value>): set<Atom> {
    set k | k in m :: Text(k)
  }

  /** Python's `set()` of a decoded value; None where it raises. */
  function ToSet(v: Value): Option<set<Atom>> {
    match v
    case List(items) =>
      if forall i :: 0 <= i < |items| ==> items[i].Scalar? then Some(set i | 0 <= i < |items| :: items[i].a) else None
    case Set(elements) => Some(elements)
    case Dict(m) => Some(TextSet(m))
    case PersistentMapping(pm) => Some(pm.Keys)
    case Scalar(a) => if a.Text? then Some(set i | 0 <= i < |a.s| :: Text([a.s[i]])) else None
  }

  datatype Pair = Pair(key: Atom, value: Value)

  function PairOfAtoms(atoms: seq<Atom>): Option<Pair> {
    if |atoms| == 2 then Some(Pair(atoms[0], Scalar(atoms[1]))) else None
  }

  /** A key and a value out of whatever has two elements when iterated; the key must be hashable. */
  function PairOf(c: Codec, v: Value): Option<Pair> {
    match v
    case List(items) => if |items| == 2 && items[0].Scalar? then Some(Pair(items[0].a, items[1])) else None
    case Set(elements) => PairOfAtoms(c.order(elements))
    case Dict(m) => PairOfAtoms(c.keyOrder(TextSet(m)))
    case PersistentMapping(pm) => PairOfAtoms(c.keyOrder(pm.Keys))
    case Scalar(a) => if a.Text? && |a.s| == 2 then Some(Pair(Text(a.s[..1]), Scalar(Text(a.s[1..])))) else None
  }

  /** Of two pairs with the same key the later one counts. */
  function FromPairs(c: Codec, items: seq<Value>): Option<map<Atom, Value>> {
    if items == [] then Some(map[])
    else
      match (FromPairs(c, items[..|items| - 1]), PairOf(c, items[|items| - 1]))
      case (Some(m), Some(pair)) => Some(m[pair.key := pair.value])
      case _ => None
  }

  function AtomsAsValues(atoms: seq<Atom>): (r: seq<Value>)
    ensures |r| == |atoms| && forall i :: 0 <= i < |r| ==> r[i] == Scalar(atoms[i])
  {
    seq(|atoms|, i requires 0 <= i < |atoms| => Scalar(atoms[i]))
  }

  function TextKeyed(m: map<string, Value>): map<Atom, Value> {
    map k | k in m :: Text(k) := m[k]
  }

  /** `PersistentMapping()` of a decoded value: of a mapping, of nothing, or of anything that yields
      pairs; None where it raises. */
  function ToMapping(c: Codec, v: Value): Option<map<Atom, Value>> {
    match v
    case Dict(m) => Some(TextKeyed(m))
    case PersistentMapping(pm) => Some(pm)
    case List(items) => FromPairs(c, items)
    case Set(elements) => FromPairs(c, AtomsAsValues(c.order(elements)))
    case Scalar(a) => if a == Null || a == Text("") then Some(map[]) else None
  }

  /** The object hook, applied to each object once its fields are decoded; None where it raises. */
  function Hook(c: Codec, m: map<string, Value>): Option<Value> {
    if TYPE_KEY !in m then Some(Dict(m))
    else if VALUE_KEY !in m then None
    else
      var value := m[VALUE_KEY];
      if m[TYPE_KEY] == Scalar(Text("datetime")) then
        if value.Scalar? && value.a.Text? && c.parseDate(value.a.s).Some?
        then Some(Scalar(Date(AsUtc(c.parseDate(value.a.s).value)))) else None
      else if m[TYPE_KEY] == Scalar(Text("UUID")) then
        if value.Scalar? && value.a.Text? && c.parseUuid(value.a.s).Some?
        then Some(Scalar(Uuid(c.parseUuid(value.a.s).value))) else None
      else if m[TYPE_KEY] == Scalar(Text("set")) then
        (match ToSet(value) case Some(elements) => Some(Set(elements)) case None => None)
      else if m[TYPE_KEY] == Scalar(Text("PersistentMapping")) then
        (match ToMapping(c, value) case Some(fields) => Some(PersistentMapping(fields)) case None => None)
      else None
  }

  function Decode(c: Codec, j: Json): Option<Value>
    decreases j
  {
    match j
    case JNull => Some(Scalar(Null))
    case JBool(b) => Some(Scalar(Bool(b)))
    case JNum(n) => Some(Scalar(Num(n)))
    case JText(s) => Some(Scalar(Text(s)))
    case JArray(items) =>
      if forall i :: 0 <= i < |items| ==> Decode(c, items[i]).Some?
      then Some(List(seq(|items|,
                          i requires 0 <= i < |items| && Decode(c, items[i]).Some? => Decode(c, items[i]).value)))
      else None
    case JObject(m) =>
      if forall k :: k in m ==> Decode(c, m[k]).Some?
      then Hook(c, map k | k in m :: Decode(c, m[k]).value)
      else None
  }

  // ----- the round trip -----

  function UtcAtom(a: Atom): Atom {
    if a.Date? then Date(AsUtc(a.dt)) else a
  }

  /** The value with every aware datetime moved to UTC. */
  function Utc(v: Value): Value
    decreases v, 1
  {
    match v
    case Scalar(a) => Scalar(UtcAtom(a))
    case List(items) => List(seq(|items|, i requires 0 <= i < |items| => Utc(items[i])))
    case Dict(_) => Dict(UtcDict(v))
    case PersistentMapping(_) => PersistentMapping(UtcMapping(v))
    case Set(elements) => Set(UtcElements(elements))
  }

  function UtcDict(v: Value): map<string, Value>
    requires v.Dict?
    decreases v, 0
  {
    map k | k in v.m :: Utc(v.m[k])
  }

  function UtcMapping(v: Value): map<Atom, Value>
    requires v.PersistentMapping?
    decreases v, 0
  {
    map k | k in v.pm :: Utc(v.pm[k])
  }

  function UtcElements(elements: set<Atom>): set<Atom> {
    set a | a in elements :: UtcAtom(a)
  }

  /** No mapping anywhere uses the reserved type key. */
  predicate NoReservedKey(v: Value) {
    match v
    case Scalar(_) => true
    case List(items) => forall i :: 0 <= i < |items| ==> NoReservedKey(items[i])
    case Dict(m) => TYPE_KEY !in m && forall k :: k in m ==> NoReservedKey(m[k])
    case PersistentMapping(pm) => Text(TYPE_KEY) !in pm && forall k :: k in pm ==> NoReservedKey(pm[k])
    case Set(_) => true
  }

  /** The atom after the round trip: an aware datetime is the same instant without offset, and everything
      else is the same. */
  predicate SameInstant(a: Atom, b: Atom) {
    match a
    case Date(Aware(local, offset)) => b == Date(Aware(local - offset, 0))
    case _ => b == a
  }

  /** The value after the round trip, compared part by part. */
  ghost predicate SameButUtc(v: Value, w: Value) {
    match v
    case Scalar(a) => w.Scalar? && SameInstant(a, w.a)
    case List(items) =>
      w.List? && |w.items| == |items| && forall i :: 0 <= i < |items| ==> SameButUtc(items[i], w.items[i])
    case Dict(m) => w.Dict? && w.m.Keys == m.Keys && forall k :: k in m ==> SameButUtc(m[k], w.m[k])
    case PersistentMapping(pm) =>
      w.PersistentMapping? && w.pm.Keys == pm.Keys && forall k :: k in pm ==> SameButUtc(pm[k], w.pm[k])
    case Set(elements) =>
      && w.Set?
      && (forall a :: a in elements ==> exists b :: b in w.elements && SameInstant(a, b))
      && (forall b :: b in w.elements ==> exists a :: a in elements && SameInstant(a, b))
  }

  /** All that moving to UTC does is to write aware datetimes as the same instant without offset. */
  lemma {:induction false} UtcKeepsInstants(v: Value)
    ensures SameButUtc(v, Utc(v))
    decreases v
  {
    match v
    case List(items) =>
      forall i | 0 <= i < |items| ensures SameButUtc(items[i], Utc(v).items[i]) { UtcKeepsInstants(items[i]); }
    case Dict(m) =>
      assert UtcDict(v).Keys == m.Keys;
      forall k | k in m ensures SameButUtc(m[k], UtcDict(v)[k]) { UtcKeepsInstants(m[k]); }
    case PersistentMapping(pm) =>
      assert UtcMapping(v).Keys == pm.Keys;
      forall k | k in pm ensures SameButUtc(pm[k], UtcMapping(v)[k]) { UtcKeepsInstants(pm[k]); }
    case Set(elements) =>
      forall a | a in elements ensures UtcAtom(a) in UtcElements(elements) && SameInstant(a, UtcAtom(a)) { }
    case Scalar(_) =>
  }

  lemma DecodesObject(c: Codec, m: map<string, Json>, fields: map<string, Value>)
    requires m.Keys == fields.Keys && forall k :: k in m ==> Decode(c, m[k]) == Some(fields[k])
    ensures Decode(c, JObject(m)) == Hook(c, fields)
  {
    var decoded := map k | k in m :: Decode(c, m[k]).value;
    assert decoded == fields;
  }

  lemma DecodesArray(c: Codec, items: seq<Json>, values: seq<Value>)
    requires |items| == |values| && forall i :: 0 <= i < |items| ==> Decode(c, items[i]) == Some(values[i])
    ensures Decode(c, JArray(items)) == Some(List(values))
  {
    var decoded := seq(|items|, i requires 0 <= i < |items| && Decode(c, items[i]).Some? => Decode(c, items[i]).value);
    assert decoded == values;
  }

  lemma TaggedDecodes(c: Codec, tag: string, value: Json)
    requires Decode(c, value).Some?
    ensures Decode(c, Tagged(tag, value))
         == Hook(c, TaggedFields(tag, Decode(c, value).value))
  {
    DecodesObject(c, map[TYPE_KEY := JText(tag), VALUE_KEY := value], TaggedFields(tag, Decode(c, value).value));
  }

  lemma AtomRoundTrip(c: Codec, a: Atom)
    requires Faithful(c) && !a.Bytes?
    ensures Decode(c, EncodeAtom(c, a)) == Some(Scalar(UtcAtom(a)))
  {
    if a.Uuid? { TaggedDecodes(c, "UUID", JText(c.uuidText(a.id))); }
    if a.Date? { TaggedDecodes(c, "datetime", JText(c.isoformat(a.dt))); }
  }

  /** The fields of a decoded object, each encoded value decoded on its own. */
  ghost predicate DictDecodes(c: Codec, v: Value, fields: map<string, Value>)
    requires v.Dict? && TextKeys(v)
  {
    fields.Keys == v.m.Keys && forall k :: k in fields ==> Decode(c, Encode(c, v.m[k])) == Some(fields[k])
  }

  ghost predicate MappingDecodes(c: Codec, v: Value, fields: map<string, Value>)
    requires v.PersistentMapping? && TextKeys(v)
  {
    && (forall k :: k in v.pm ==> k.s in fields && Decode(c, Encode(c, v.pm[k])) == Some(fields[k.s]))
    && (forall k :: k in fields ==> Text(k) in v.pm)
  }

  lemma DecodesDict(c: Codec, v: Value, fields: map<string, Value>)
    requires v.Dict? && TextKeys(v) && DictDecodes(c, v, fields)
    ensures Decode(c, Encode(c, v)) == Hook(c, fields)
  {
    DecodesObject(c, EncodeDict(c, v), fields);
  }

  lemma MappingKeys(c: Codec, v: Value, fields: map<string, Value>)
    requires v.PersistentMapping? && TextKeys(v) && MappingDecodes(c, v, fields)
    ensures EncodeMapping(c, v).Keys == fields.Keys
  {
    var inner := EncodeMapping(c, v);
    forall k ensures k in inner <==> k in fields {
      if k in inner { var a :| a in v.pm && a.s == k; }
      if k in fields { assert Text(k) in v.pm && Text(k).s == k; }
    }
  }

  /** The object inside an encoded persistent mapping. */
  lemma DecodesInner(c: Codec, v: Value, fields: map<string, Value>)
    requires v.PersistentMapping? && TextKeys(v) && MappingDecodes(c, v, fields)
    ensures Decode(c, JObject(EncodeMapping(c, v))) == Hook(c, fields)
  {
    var inner := EncodeMapping(c, v);
    MappingKeys(c, v, fields);
    forall k | k in inner ensures Decode(c, inner[k]) == Some(fields[k]) {
      assert Text(k) in v.pm;
    }
    DecodesObject(c, inner, fields);
  }

  function TaggedFields(tag: string, value: Value): map<string, Value> {
    map[TYPE_KEY := Scalar(Text(tag)), VALUE_KEY := value]
  }

  function MadeOf(c: Codec, inner: Value): Option<Value> {
    match ToMapping(c, inner) case Some(pm) => Some(PersistentMapping(pm)) case None => None
  }

  lemma HookMakesMapping(c: Codec, inner: Value)
    ensures Hook(c, TaggedFields("PersistentMapping", inner)) == MadeOf(c, inner)
  {
    var fields := TaggedFields("PersistentMapping", inner);
    assert fields[TYPE_KEY] == Scalar(Text("PersistentMapping")) && fields[VALUE_KEY] == inner;
    assert "PersistentMapping"[0] == 'P' && "datetime"[0] == 'd' && "UUID"[0] == 'U' && "set"[0] == 's';
  }

  lemma EncodesMapping(c: Codec, v: Value)
    requires v.PersistentMapping? && TextKeys(v)
    ensures Encode(c, v) == Tagged("PersistentMapping", JObject(EncodeMapping(c, v)))
  {
  }

  /** A persistent mapping is made of whatever the object inside decodes to. */
  lemma DecodesMapping(c: Codec, v: Value, inner: Value)
    requires v.PersistentMapping? && TextKeys(v) && Decode(c, JObject(EncodeMapping(c, v))) == Some(inner)
    ensures Decode(c, Encode(c, v)) == MadeOf(c, inner)
  {
    EncodesMapping(c, v);
    TaggedDecodes(c, "PersistentMapping", JObject(EncodeMapping(c, v)));
    HookMakesMapping(c, inner);
  }

  function UtcFields(v: Value): map<string, Value>
    requires v.PersistentMapping? && TextKeys(v)
  {
    map k | k in v.pm :: k.s := Utc(v.pm[k])
  }

  lemma UtcFieldsAre(v: Value)
    requires v.PersistentMapping? && TextKeys(v)
    ensures forall k :: k in v.pm ==> k.s in UtcFields(v) && UtcFields(v)[k.s] == Utc(v.pm[k])
    ensures forall k :: k in UtcFields(v) ==> Text(k) in v.pm
    ensures TextKeyed(UtcFields(v)) == UtcMapping(v)
  {
    var fields := UtcFields(v);
    forall k | k in fields ensures Text(k) in v.pm {
      var a :| a in v.pm && a.s == k;
      assert a == Text(k);
    }
    forall k | k in v.pm ensures k in TextKeyed(fields) && TextKeyed(fields)[k] == Utc(v.pm[k]) {
      assert k == Text(k.s) && k.s in fields;
    }
  }

  lemma MappingRoundTrip(c: Codec, v: Value)
    requires v.PersistentMapping? && TextKeys(v) && Text(TYPE_KEY) !in v.pm
    requires forall k :: k in v.pm ==> Decode(c, Encode(c, v.pm[k])) == Some(Utc(v.pm[k]))
    ensures Decode(c, Encode(c, v)) == Some(Utc(v))
  {
    UtcFieldsAre(v);
    DecodesInner(c, v, UtcFields(v));
    DecodesMapping(c, v, Dict(UtcFields(v)));
  }

  function UtcValues(atoms: seq<Atom>): (r: seq<Value>)
    ensures |r| == |atoms| && forall i :: 0 <= i < |r| ==> r[i] == Scalar(UtcAtom(atoms[i]))
  {
    seq(|atoms|, i requires 0 <= i < |atoms| => Scalar(UtcAtom(atoms[i])))
  }

  lemma AtomsRoundTrip(c: Codec, atoms: seq<Atom>)
    requires Faithful(c) && forall i :: 0 <= i < |atoms| ==> !atoms[i].Bytes?
    ensures Decode(c, JArray(EncodeAtoms(c, atoms))) == Some(List(UtcValues(atoms)))
  {
    forall i | 0 <= i < |atoms| ensures Decode(c, EncodeAtom(c, atoms[i])) == Some(UtcValues(atoms)[i]) {
      AtomRoundTrip(c, atoms[i]);
    }
    DecodesArray(c, EncodeAtoms(c, atoms), UtcValues(atoms));
  }

  lemma SetRoundTrip(c: Codec, elements: set<Atom>)
    requires Faithful(c) && forall a :: a in elements ==> !a.Bytes?
    ensures Decode(c, Encode(c, Set(elements))) == Some(Utc(Set(elements)))
  {
    var atoms := c.order(elements);
    forall i | 0 <= i < |atoms| ensures !atoms[i].Bytes? { assert atoms[i] in atoms; }
    AtomsRoundTrip(c, atoms);
    TaggedDecodes(c, "set", JArray(EncodeAtoms(c, atoms)));
    SetOfUtc(c, elements, UtcValues(atoms));
  }

  lemma SetOfUtc(c: Codec, elements: set<Atom>, values: seq<Value>)
    requires Faithful(c)
    requires var atoms := c.order(elements);
      |values| == |atoms| && forall i :: 0 <= i < |atoms| ==> values[i] == Scalar(UtcAtom(atoms[i]))
    ensures ToSet(List(values)) == Some(UtcElements(elements))
  {
    var atoms := c.order(elements);
    var back := ToSet(List(values)).value;
    forall x ensures x in back <==> x in UtcElements(elements) {
      if a :| a in elements && x == UtcAtom(a) {
        var i :| 0 <= i < |atoms| && atoms[i] == a;
        assert values[i].a == x;
      }
      if x in back {
        var i :| 0 <= i < |values| && values[i].a == x;
        assert atoms[i] in atoms;
      }
    }
    assert back == UtcElements(elements);
  }

  /** Decoding what was encoded gives the value back, with aware datetimes in UTC. */
  lemma {:induction false} RoundTrip(c: Codec, v: Value)
    requires Faithful(c) && TextKeys(v) && NoReservedKey(v) && AllUnicode(v)
    ensures Decode(c, Encode(c, v)) == Some(Utc(v))
    decreases v
  {
    match v
    case Scalar(a) => AtomRoundTrip(c, a);
    case List(items) =>
      forall i | 0 <= i < |items| ensures Decode(c, Encode(c, items[i])) == Some(Utc(items[i])) {
        RoundTrip(c, items[i]);
      }
      DecodesArray(c, Encode(c, v).items, Utc(v).items);
    case Dict(m) =>
      forall k | k in m ensures Decode(c, Encode(c, m[k])) == Some(Utc(m[k])) { RoundTrip(c, m[k]); }
      DecodesDict(c, v, UtcDict(v));
    case PersistentMapping(pm) =>
      forall k | k in pm ensures Decode(c, Encode(c, pm[k])) == Some(Utc(pm[k])) { RoundTrip(c, pm[k]); }
      MappingRoundTrip(c, v);
    case Set(elements) => SetRoundTrip(c, elements);
  }


  /** What comes back, part by part: aware datetimes denote the same instants, without offset. */
  lemma RoundTripKeepsInstants(c: Codec, v: Value)
    requires Faithful(c) && TextKeys(v) && NoReservedKey(v) && AllUnicode(v)
    ensures Decode(c, Encode(c, v)).Some? && SameButUtc(v, Decode(c, Encode(c, v)).value)
  {
    RoundTrip(c, v);
    UtcKeepsInstants(v);
  }

  /** The texts that other programs see. */
  lemma TaggedForm(tag: string, value: Json)
    ensures Tagged(tag, value) == JObject(map["_advancedjson_type" := JText(tag), "_advancedjson_value" := value])
  {
  }

  lemma EncodedForms(c: Codec, id: int, dt: DateTime, elements: set<Atom>, v: Value)
    requires v.PersistentMapping? && TextKeys(v)
    ensures EncodeAtom(c, Uuid(id)) == Tagged("UUID", JText(c.uuidText(id)))
    ensures EncodeAtom(c, Date(dt)) == Tagged("datetime", JText(c.isoformat(dt)))
    ensures Encode(c, Set(elements)) == Tagged("set", JArray(EncodeAtoms(c, c.order(elements))))
    ensures Encode(c, v) == Tagged("PersistentMapping", JObject(EncodeMapping(c, v)))
  {
  }

  /** A tagged object without a value, or with a type that is none of the four, cannot be decoded. */
  lemma UnknownTagRaises(c: Codec, m: map<string, Value>)
    requires "_advancedjson_type" in m
    ensures "_advancedjson_value" !in m ==> Hook(c, m) == None
    ensures Hook(c, m).Some? ==> exists tag ::
      tag in ["datetime", "UUID", "set", "PersistentMapping"] && m["_advancedjson_type"] == Scalar(Text(tag))
  {
    if Hook(c, m).Some? {
      var tag := m["_advancedjson_type"].a.s;
      assert tag in ["datetime", "UUID", "set", "PersistentMapping"];
    }
  }

  /** Pairs are entered one after the other, be they lists or texts of two characters. */
  lemma PairsAreEntered(c: Codec, items: seq<Value>, key: Atom, value: Value, a: char, b: char)
    requires FromPairs(c, items).Some?
    ensures FromPairs(c, []) == Some(map[])
    ensures FromPairs(c, items + [List([Scalar(key), value])]) == Some(FromPairs(c, items).value[key := value])
    ensures FromPairs(c, items + [Scalar(Text([a, b]))])
         == Some(FromPairs(c, items).value[Text([a]) := Scalar(Text([b]))])
  {
    var pair, text := List([Scalar(key), value]), Scalar(Text([a, b]));
    assert (items + [pair])[..|items|] == items && (items + [text])[..|items|] == items;
    assert PairOf(c, pair) == Some(Pair(key, value));
    assert [a, b][..1] == [a] && [a, b][1..] == [b];
  }

  lemma TwoAtomsAreAPair(c: Codec, items: seq<Value>, source: Value, atoms: seq<Atom>)
    requires FromPairs(c, items).Some?
    requires match source
      case Set(elements) => atoms == c.order(elements)
      case Dict(m) => atoms == c.keyOrder(TextSet(m))
      case PersistentMapping(pm) => atoms == c.keyOrder(pm.Keys)
      case _ => false
    ensures FromPairs(c, items + [source])
         == if |atoms| == 2 then Some(FromPairs(c, items).value[atoms[0] := Scalar(atoms[1])]) else None
  {
    assert (items + [source])[..|items|] == items;
  }

  /** Sources that are neither lists nor mappings: a text is the set of its characters, and a mapping is
      made of no single value but nothing and the empty text. */
  lemma OddSources(c: Codec, a: Atom)
    ensures a.Text? ==> ToSet(Scalar(a)).Some?
    ensures a.Text? ==> forall x :: x in ToSet(Scalar(a)).value <==> exists i :: 0 <= i < |a.s| && x == Text([a.s[i]])
    ensures !a.Text? ==> ToSet(Scalar(a)) == None
    ensures ToMapping(c, Scalar(a)) == if a == Null || a == Text("") then Some(map[]) else None
  {
  }

  // ----- what decoding yields -----

  /** No byte string anywhere, and no dictionary with the reserved type key. */
  predicate Clean(v: Value) {
    match v
    case Scalar(a) => !a.Bytes?
    case List(items) => forall i :: 0 <= i < |items| ==> Clean(items[i])
    case Dict(m) => TYPE_KEY !in m && forall k :: k in m ==> Clean(m[k])
    case PersistentMapping(pm) => forall k :: k in pm ==> !k.Bytes? && Clean(pm[k])
    case Set(elements) => forall a :: a in elements ==> !a.Bytes?
  }

  lemma PairIsClean(c: Codec, v: Value)
    requires Faithful(c) && Clean(v)
    ensures PairOf(c, v).Some? ==> !PairOf(c, v).value.key.Bytes? && Clean(PairOf(c, v).value.value)
  {
    match v
    case Set(elements) => PairOfAtomsWithin(c.order(elements));
    case Dict(m) => PairOfAtomsWithin(c.keyOrder(TextSet(m)));
    case PersistentMapping(pm) => PairOfAtomsWithin(c.keyOrder(pm.Keys));
    case _ =>
  }

  lemma PairOfAtomsWithin(atoms: seq<Atom>)
    ensures PairOfAtoms(atoms).Some? ==>
      var pair := PairOfAtoms(atoms).value; pair.key in atoms && pair.value.Scalar? && pair.value.a in atoms
  {
  }

  lemma {:induction false} PairsAreClean(c: Codec, items: seq<Value>)
    requires Faithful(c) && forall i :: 0 <= i < |items| ==> Clean(items[i])
    ensures FromPairs(c, items).Some? ==> Clean(PersistentMapping(FromPairs(c, items).value))
  {
    if items != [] {
      PairsAreClean(c, items[..|items| - 1]);
      PairIsClean(c, items[|items| - 1]);
    }
  }

  lemma MappingIsClean(c: Codec, v: Value)
    requires Faithful(c) && Clean(v)
    ensures ToMapping(c, v).Some? ==> Clean(PersistentMapping(ToMapping(c, v).value))
  {
    match v
    case List(items) => PairsAreClean(c, items);
    case Set(elements) =>
      var atoms := c.order(elements);
      assert forall i :: 0 <= i < |atoms| ==> atoms[i] in atoms;
      PairsAreClean(c, AtomsAsValues(atoms));
    case _ =>
  }

  lemma SetIsClean(v: Value)
    requires Clean(v)
    ensures ToSet(v).Some? ==> Clean(Set(ToSet(v).value))
  {
    if v.List? && ToSet(v).Some? {
      forall a | a in ToSet(v).value ensures !a.Bytes? {
        var i :| 0 <= i < |v.items| && v.items[i].a == a;
        assert Clean(v.items[i]);
      }
    }
  }

  lemma HookIsClean(c: Codec, m: map<string, Value>)
    requires Faithful(c) && forall k :: k in m ==> Clean(m[k])
    ensures Hook(c, m).Some? ==> Clean(Hook(c, m).value)
  {
    if TYPE_KEY in m && VALUE_KEY in m {
      MappingIsClean(c, m[VALUE_KEY]);
      SetIsClean(m[VALUE_KEY]);
    }
  }

  /** Whatever text is decoded, the result has no byte string and no dictionary with the reserved key. */
  lemma {:induction false} DecodedIsClean(c: Codec, j: Json)
    requires Faithful(c)
    ensures Decode(c, j).Some? ==> Clean(Decode(c, j).value)
    decreases j
  {
    match j
    case JArray(items) =>
      forall i | 0 <= i < |items| ensures Decode(c, items[i]).Some? ==> Clean(Decode(c, items[i]).value) {
        DecodedIsClean(c, items[i]);
      }
    case JObject(m) =>
      forall k | k in m ensures Decode(c, m[k]).Some? ==> Clean(Decode(c, m[k]).value) {
        DecodedIsClean(c, m[k]);
      }
      if Decode(c, j).Some? { HookIsClean(c, map k | k in m :: Decode(c, m[k]).value); }
    case _ =>
  }

  /** But a persistent mapping can have it: pairs are accepted as well as an object. */
  lemma DecodedMappingCanBeReserved(c: Codec)
    ensures Decode(c, Tagged("PersistentMapping", JArray([JArray([JText(TYPE_KEY), JText("x")])])))
         == Some(PersistentMapping(map[Text(TYPE_KEY) := Scalar(Text("x"))]))
  {
    var pair := List([Scalar(Text(TYPE_KEY)), Scalar(Text("x"))]);
    DecodesArray(c, [JText(TYPE_KEY), JText("x")], pair.items);
    DecodesArray(c, [JArray([JText(TYPE_KEY), JText("x")])], [pair]);
    TaggedDecodes(c, "PersistentMapping", JArray([JArray([JText(TYPE_KEY), JText("x")])]));
    HookMakesMapping(c, List([pair]));
    assert [pair][..0] == [];
    assert FromPairs(c, []) == Some(map[]);
    assert FromPairs(c, [pair]) == Some(map[][Text(TYPE_KEY) := Scalar(Text("x"))]);
  }

  // ----- decoding never gets deeper -----

  predicate AtMost(v: Value, depth: nat) {
    match v
    case Scalar(_) => true
    case List(items) => depth > 0 && forall i :: 0 <= i < |items| ==> AtMost(items[i], depth - 1)
    case Dict(m) => depth > 0 && forall k :: k in m ==> AtMost(m[k], depth - 1)
    case PersistentMapping(pm) => depth > 0 && forall k :: k in pm ==> AtMost(pm[k], depth - 1)
    case Set(_) => depth > 0
  }

  lemma {:induction false} AtMostMore(v: Value, d: nat, e: nat)
    requires AtMost(v, d) && d <= e
    ensures AtMost(v, e)
    decreases v
  {
    match v
    case List(items) =>
      forall i | 0 <= i < |items| ensures AtMost(items[i], e - 1) { AtMostMore(items[i], d - 1, e - 1); }
    case Dict(m) => forall k | k in m ensures AtMost(m[k], e - 1) { AtMostMore(m[k], d - 1, e - 1); }
    case PersistentMapping(pm) => forall k | k in pm ensures AtMost(pm[k], e - 1) { AtMostMore(pm[k], d - 1, e - 1); }
    case _ =>
  }

  ghost predicate HasDepth(v: Value) { exists d: nat :: AtMost(v, d) }

  lemma {:induction false} CommonDepth(values: set<Value>) returns (d: nat)
    requires forall v :: v in values ==> HasDepth(v)
    ensures forall v :: v in values ==> AtMost(v, d)
    decreases |values|
  {
    d := 0;
    if values != {} {
      assert (forall v :: v !in values) ==> values == {};
      var v :| v in values;
      var e: nat :| AtMost(v, e);
      var rest := CommonDepth(values - {v});
      d := e + rest;
      forall w | w in values ensures AtMost(w, d) {
        if w == v { AtMostMore(w, e, d); } else { AtMostMore(w, rest, d); }
      }
    }
  }

  lemma {:induction false} EveryValueHasDepth(v: Value)
    ensures HasDepth(v)
    decreases v
  {
    match v
    case List(items) =>
      forall w | w in items ensures HasDepth(w) { EveryValueHasDepth(w); }
      var d := CommonDepth(set w | w in items);
      assert AtMost(v, d + 1);
    case Dict(m) =>
      forall k | k in m ensures HasDepth(m[k]) { EveryValueHasDepth(m[k]); }
      var d := CommonDepth(m.Values);
      assert AtMost(v, d + 1);
    case PersistentMapping(pm) =>
      forall k | k in pm ensures HasDepth(pm[k]) { EveryValueHasDepth(pm[k]); }
      var d := CommonDepth(pm.Values);
      assert AtMost(v, d + 1);
    case _ => assert AtMost(v, 1);
  }

  lemma {:induction false} LeastDepth(v: Value, bound: nat) returns (d: nat)
    requires AtMost(v, bound)
    ensures AtMost(v, d) && (d > 0 ==> !AtMost(v, d - 1))
  {
    if bound == 0 || !AtMost(v, bound - 1) { d := bound; } else { d := LeastDepth(v, bound - 1); }
  }

  lemma {:induction false} UtcKeepsDepth(v: Value, d: nat)
    requires AtMost(Utc(v), d)
    ensures AtMost(v, d)
    decreases v
  {
    match v
    case List(items) =>
      forall i | 0 <= i < |items| ensures AtMost(items[i], d - 1) {
        assert Utc(v).items[i] == Utc(items[i]);
        UtcKeepsDepth(items[i], d - 1);
      }
    case Dict(m) =>
      forall k | k in m ensures AtMost(m[k], d - 1) {
        assert k in UtcDict(v) && UtcDict(v)[k] == Utc(m[k]);
        UtcKeepsDepth(m[k], d - 1);
      }
    case PersistentMapping(pm) =>
      forall k | k in pm ensures AtMost(pm[k], d - 1) {
        assert k in UtcMapping(v) && UtcMapping(v)[k] == Utc(pm[k]);
        UtcKeepsDepth(pm[k], d - 1);
      }
    case _ =>
  }

  lemma {:induction false} PairsShallow(c: Codec, items: seq<Value>, d: nat)
    requires forall i :: 0 <= i < |items| ==> AtMost(items[i], d)
    ensures FromPairs(c, items).Some? ==>
      forall k :: k in FromPairs(c, items).value ==> AtMost(FromPairs(c, items).value[k], d)
  {
    if items != [] {
      var last := items[|items| - 1];
      PairsShallow(c, items[..|items| - 1], d);
      if last.List? && |last.items| == 2 { AtMostMore(last.items[1], d - 1, d); }
    }
  }

  /** The values of a mapping are less deep than what it was made of. */
  lemma MappingShallow(c: Codec, v: Value, d: nat)
    requires AtMost(v, d)
    ensures ToMapping(c, v).Some? ==>
      forall k :: k in ToMapping(c, v).value ==> d > 0 && AtMost(ToMapping(c, v).value[k], d - 1)
  {
    match v
    case List(items) => PairsShallow(c, items, d - 1);
    case Set(elements) => PairsShallow(c, AtomsAsValues(c.order(elements)), d - 1);
    case _ =>
  }

  lemma HookShallow(c: Codec, m: map<string, Value>, d: nat)
    requires forall k :: k in m ==> AtMost(m[k], d)
    ensures Hook(c, m).Some? ==> AtMost(Hook(c, m).value, d + 1)
  {
    if TYPE_KEY in m && VALUE_KEY in m && ToMapping(c, m[VALUE_KEY]).Some? {
      var pm := ToMapping(c, m[VALUE_KEY]).value;
      MappingShallow(c, m[VALUE_KEY], d);
      forall k | k in pm ensures AtMost(pm[k], d) { AtMostMore(pm[k], d - 1, d); }
    }
  }

  function DecodedFields(c: Codec, m: map<string, Json>): map<string, Value>
    requires forall k :: k in m ==> Decode(c, m[k]).Some?
  {
    map k | k in m :: Decode(c, m[k]).value
  }

  /** Where an object decodes, its fields do. */
  lemma ObjectDecodes(c: Codec, m: map<string, Json>)
    requires Decode(c, JObject(m)).Some?
    ensures forall k :: k in m ==> Decode(c, m[k]).Some?
    ensures Decode(c, JObject(m)) == Hook(c, DecodedFields(c, m))
  {
    DecodesObject(c, m, DecodedFields(c, m));
  }

  lemma DictFields(c: Codec, v: Value) returns (fields: map<string, Value>)
    requires v.Dict? && TextKeys(v) && Decode(c, Encode(c, v)).Some?
    ensures DictDecodes(c, v, fields) && Decode(c, Encode(c, v)) == Hook(c, fields)
  {
    ObjectDecodes(c, EncodeDict(c, v));
    fields := DecodedFields(c, EncodeDict(c, v));
  }

  lemma MappingFields(c: Codec, v: Value) returns (fields: map<string, Value>)
    requires v.PersistentMapping? && TextKeys(v) && Decode(c, Encode(c, v)).Some?
    ensures MappingDecodes(c, v, fields) && Hook(c, fields).Some?
    ensures Decode(c, Encode(c, v)) == MadeOf(c, Hook(c, fields).value)
  {
    var inner := EncodeMapping(c, v);
    EncodesMapping(c, v);
    TaggedMustDecode(c, "PersistentMapping", JObject(inner));
    ObjectDecodes(c, inner);
    fields := DecodedFields(c, inner);
    forall k | k in v.pm ensures k.s in fields && Decode(c, Encode(c, v.pm[k])) == Some(fields[k.s]) {
      assert k.s in inner && Text(k.s) == k;
    }
    DecodesMapping(c, v, Hook(c, fields).value);
  }

  lemma TaggedMustDecode(c: Codec, tag: string, value: Json)
    requires Decode(c, Tagged(tag, value)).Some?
    ensures Decode(c, value).Some?
  {
    var m := map[TYPE_KEY := JText(tag), VALUE_KEY := value];
    ObjectDecodes(c, m);
    assert m[VALUE_KEY] == value;
  }

  lemma EncodedAtomIsScalar(c: Codec, a: Atom)
    ensures Decode(c, EncodeAtom(c, a)).Some? ==> Decode(c, EncodeAtom(c, a)).value.Scalar?
  {
    if a.Uuid? { TaggedDecodes(c, "UUID", JText(c.uuidText(a.id))); }
    if a.Date? { TaggedDecodes(c, "datetime", JText(c.isoformat(a.dt))); }
  }

  lemma EncodedSetIsSet(c: Codec, v: Value)
    requires v.Set? && Decode(c, Encode(c, v)).Some?
    ensures Decode(c, Encode(c, v)).value.Set?
  {
    var items := JArray(EncodeAtoms(c, c.order(v.elements)));
    TaggedMustDecode(c, "set", items);
    TaggedDecodes(c, "set", items);
  }

  ghost predicate Shallow(c: Codec, v: Value, d: nat)
    requires TextKeys(v)
  {
    Decode(c, Encode(c, v)).Some? ==> AtMost(Decode(c, Encode(c, v)).value, d)
  }

  lemma ListDecodesShallow(c: Codec, v: Value, d: nat)
    requires v.List? && TextKeys(v) && d > 0
    requires forall i :: 0 <= i < |v.items| ==> Shallow(c, v.items[i], d - 1)
    ensures Shallow(c, v, d)
  {
    if Decode(c, Encode(c, v)).Some? {
      var decoded := Decode(c, Encode(c, v)).value;
      forall i | 0 <= i < |v.items| ensures AtMost(decoded.items[i], d - 1) {
        assert Encode(c, v).items[i] == Encode(c, v.items[i]) && Shallow(c, v.items[i], d - 1);
      }
    }
  }

  lemma DictDecodesShallow(c: Codec, v: Value, d: nat)
    requires v.Dict? && TextKeys(v) && d > 0
    requires forall k :: k in v.m ==> Shallow(c, v.m[k], d - 1)
    ensures Shallow(c, v, d)
  {
    if Decode(c, Encode(c, v)).Some? {
      var fields := DictFields(c, v);
      forall k | k in fields ensures AtMost(fields[k], d - 1) { assert Shallow(c, v.m[k], d - 1); }
      HookShallow(c, fields, d - 1);
    }
  }

  lemma MappingFieldsShallow(c: Codec, v: Value, fields: map<string, Value>, d: nat)
    requires v.PersistentMapping? && TextKeys(v) && MappingDecodes(c, v, fields)
    requires forall k :: k in v.pm ==> Shallow(c, v.pm[k], d)
    ensures forall k :: k in fields ==> AtMost(fields[k], d)
  {
    forall k | k in fields ensures AtMost(fields[k], d) { assert Shallow(c, v.pm[Text(k)], d); }
  }

  lemma MadeShallow(c: Codec, inner: Value, d: nat)
    requires AtMost(inner, d) && d > 0
    ensures MadeOf(c, inner).Some? ==> AtMost(MadeOf(c, inner).value, d)
  {
    MappingShallow(c, inner, d);
  }

  lemma MappingDecodesShallow(c: Codec, v: Value, d: nat)
    requires v.PersistentMapping? && TextKeys(v) && d > 0
    requires forall k :: k in v.pm ==> Shallow(c, v.pm[k], d - 1)
    ensures Shallow(c, v, d)
  {
    if Decode(c, Encode(c, v)).Some? {
      var fields := MappingFields(c, v);
      MappingFieldsShallow(c, v, fields, d - 1);
      HookShallow(c, fields, d - 1);
      MadeShallow(c, Hook(c, fields).value, d);
    }
  }

  lemma SetDecodesShallow(c: Codec, v: Value, d: nat)
    requires v.Set? && d > 0
    ensures Shallow(c, v, d)
  {
    if Decode(c, Encode(c, v)).Some? { EncodedSetIsSet(c, v); }
  }

  /** Decoding an encoding never gets deeper. */
  lemma {:induction false} DecodeShallow(c: Codec, v: Value, d: nat)
    requires TextKeys(v) && AtMost(v, d)
    ensures Shallow(c, v, d)
    decreases v
  {
    match v
    case Scalar(a) => EncodedAtomIsScalar(c, a);
    case List(items) =>
      forall i | 0 <= i < |items| ensures Shallow(c, items[i], d - 1) { DecodeShallow(c, items[i], d - 1); }
      ListDecodesShallow(c, v, d);
    case Dict(m) =>
      forall k | k in m ensures Shallow(c, m[k], d - 1) { DecodeShallow(c, m[k], d - 1); }
      DictDecodesShallow(c, v, d);
    case PersistentMapping(pm) =>
      forall k | k in pm ensures Shallow(c, pm[k], d - 1) { DecodeShallow(c, pm[k], d - 1); }
      MappingDecodesShallow(c, v, d);
    case Set(_) => SetDecodesShallow(c, v, d);
  }

  // ----- exactly when it works -----

  lemma {:induction false} SetKeysAreShort(c: Codec, atoms: seq<Atom>)
    ensures FromPairs(c, AtomsAsValues(atoms)).Some? ==>
      forall k :: k in FromPairs(c, AtomsAsValues(atoms)).value ==> k.Text? && |k.s| == 1
  {
    if atoms != [] {
      var init := atoms[..|atoms| - 1];
      assert AtomsAsValues(atoms)[..|atoms| - 1] == AtomsAsValues(init);
      SetKeysAreShort(c, init);
    }
  }

  /** Where the object inside an encoded mapping has the reserved key and the mapping keeps it, the
      object was made from the field with the value key. */
  lemma ReservedComesFromValue(c: Codec, fields: map<string, Value>)
    requires TYPE_KEY in fields && Hook(c, fields).Some?
    requires ToMapping(c, Hook(c, fields).value).Some?
    requires Text(TYPE_KEY) in ToMapping(c, Hook(c, fields).value).value
    ensures VALUE_KEY in fields
    ensures ToMapping(c, fields[VALUE_KEY]) == ToMapping(c, Hook(c, fields).value)
  {
    var y := Hook(c, fields).value;
    assert |TYPE_KEY| != 1;
    if y.Set? { SetKeysAreShort(c, c.order(y.elements)); }
  }

  /** Such a mapping would have to contain itself, so it does not come back. */
  lemma ReservedNeverSurvives(c: Codec, v: Value)
    requires v.PersistentMapping? && TextKeys(v) && Text(TYPE_KEY) in v.pm
    ensures Decode(c, Encode(c, v)) != Some(Utc(v))
  {
    if Decode(c, Encode(c, v)) == Some(Utc(v)) {
      var fields := MappingFields(c, v);
      assert Text(TYPE_KEY) in UtcMapping(v) && Text(TYPE_KEY).s in fields;
      ReservedComesFromValue(c, fields);
      var key := Text(VALUE_KEY);
      assert key in v.pm;
      var x := v.pm[key];
      assert UtcMapping(v)[key] == Utc(x) && key.s == VALUE_KEY;
      EveryValueHasDepth(x);
      var bound: nat :| AtMost(x, bound);
      var d := LeastDepth(x, bound);
      DecodeShallow(c, x, d);
      MappingShallow(c, fields[VALUE_KEY], d);
      UtcKeepsDepth(x, d - 1);
    }
  }

  lemma HookYieldsDict(c: Codec, fields: map<string, Value>)
    requires Hook(c, fields).Some? && Hook(c, fields).value.Dict?
    ensures TYPE_KEY !in fields && Hook(c, fields).value.m == fields
  {
  }

  ghost predicate Survives(c: Codec, v: Value)
    requires TextKeys(v)
  {
    Decode(c, Encode(c, v)) == Some(Utc(v))
  }

  lemma ListItemsSurvive(c: Codec, v: Value)
    requires v.List? && TextKeys(v) && Survives(c, v)
    ensures forall i :: 0 <= i < |v.items| ==> Survives(c, v.items[i])
  {
    forall i | 0 <= i < |v.items| ensures Survives(c, v.items[i]) {
      assert Encode(c, v).items[i] == Encode(c, v.items[i]) && Utc(v).items[i] == Utc(v.items[i]);
    }
  }

  lemma DictFieldsSurvive(c: Codec, v: Value)
    requires v.Dict? && TextKeys(v) && Survives(c, v)
    ensures TYPE_KEY !in v.m && forall k :: k in v.m ==> Survives(c, v.m[k])
  {
    var fields := DictFields(c, v);
    HookYieldsDict(c, fields);
    forall k | k in v.m ensures Survives(c, v.m[k]) { assert UtcDict(v)[k] == Utc(v.m[k]); }
  }

  lemma MappingFieldsSurvive(c: Codec, v: Value)
    requires v.PersistentMapping? && TextKeys(v) && Survives(c, v)
    ensures Text(TYPE_KEY) !in v.pm && forall k :: k in v.pm ==> Survives(c, v.pm[k])
  {
    if Text(TYPE_KEY) in v.pm { ReservedNeverSurvives(c, v); }
    var fields := MappingFields(c, v);
    assert TYPE_KEY !in fields;
    forall k | k in v.pm ensures Survives(c, v.pm[k]) {
      assert TextKeyed(fields)[Text(k.s)] == fields[k.s] && UtcMapping(v)[k] == Utc(v.pm[k]);
    }
  }

  /** What survives the round trip has no reserved key. */
  lemma {:induction false} SurvivorsAreUnreserved(c: Codec, v: Value)
    requires TextKeys(v) && Survives(c, v)
    ensures NoReservedKey(v)
    decreases v
  {
    match v
    case List(items) =>
      ListItemsSurvive(c, v);
      forall i | 0 <= i < |items| ensures NoReservedKey(items[i]) { SurvivorsAreUnreserved(c, items[i]); }
    case Dict(m) =>
      DictFieldsSurvive(c, v);
      forall k | k in m ensures NoReservedKey(m[k]) { SurvivorsAreUnreserved(c, m[k]); }
    case PersistentMapping(pm) =>
      MappingFieldsSurvive(c, v);
      forall k | k in pm ensures NoReservedKey(pm[k]) { SurvivorsAreUnreserved(c, pm[k]); }
    case _ =>
  }

  lemma {:induction false} CleanIsUnicode(v: Value)
    requires Clean(v)
    ensures AllUnicode(v)
    decreases v
  {
    match v
    case List(items) => forall i | 0 <= i < |items| ensures AllUnicode(items[i]) { CleanIsUnicode(items[i]); }
    case Dict(m) => forall k | k in m ensures AllUnicode(m[k]) { CleanIsUnicode(m[k]); }
    case PersistentMapping(pm) => forall k | k in pm ensures AllUnicode(pm[k]) { CleanIsUnicode(pm[k]); }
    case _ =>
  }

  ghost predicate SameShape(v: Value) {
    (NoReservedKey(Utc(v)) <==> NoReservedKey(v)) && (AllUnicode(Utc(v)) <==> AllUnicode(v))
  }

  /** Moving datetimes to UTC adds and removes no reserved key and no byte string. */
  lemma {:induction false} UtcKeepsShape(v: Value)
    ensures NoReservedKey(Utc(v)) <==> NoReservedKey(v)
    ensures AllUnicode(Utc(v)) <==> AllUnicode(v)
    decreases v
  {
    match v
    case List(items) =>
      forall i | 0 <= i < |items| ensures SameShape(items[i]) { UtcKeepsShape(items[i]); }
      assert forall i :: 0 <= i < |items| ==> Utc(v).items[i] == Utc(items[i]);
    case Dict(m) =>
      forall k | k in m ensures SameShape(m[k]) { UtcKeepsShape(m[k]); }
      UtcKeepsDictShape(v);
    case PersistentMapping(pm) =>
      forall k | k in pm ensures SameShape(pm[k]) { UtcKeepsShape(pm[k]); }
      UtcKeepsMappingShape(v);
    case Set(elements) =>
      forall a | a in elements ensures UtcAtom(a) in Utc(v).elements { }
    case Scalar(_) =>
  }

  lemma UtcKeepsDictShape(v: Value)
    requires v.Dict? && forall k :: k in v.m ==> SameShape(v.m[k])
    ensures SameShape(v)
  {
    var fields := UtcDict(v);
    assert fields.Keys == v.m.Keys && forall k :: k in v.m ==> fields[k] == Utc(v.m[k]);
  }

  lemma UtcKeepsMappingShape(v: Value)
    requires v.PersistentMapping? && forall k :: k in v.pm ==> SameShape(v.pm[k])
    ensures SameShape(v)
  {
    var fields := UtcMapping(v);
    assert fields.Keys == v.pm.Keys && forall k :: k in v.pm ==> fields[k] == Utc(v.pm[k]);
  }

  /** A value survives the round trip exactly when no mapping in it uses the reserved key and no byte
      string occurs among its values. */
  lemma RoundTripExactly(c: Codec, v: Value)
    requires Faithful(c) && TextKeys(v)
    ensures Decode(c, Encode(c, v)) == Some(Utc(v)) <==> NoReservedKey(v) && AllUnicode(v)
    ensures Dumps(c, v).None? <==> !AllUnicode(v)
    ensures Dumps(c, v).Some? ==> Dumps(c, v).value == Encode(c, v)
    ensures Dumps(c, v).Some? ==> (Decode(c, Dumps(c, v).value) == Some(Utc(v)) <==> NoReservedKey(v))
  {
    if NoReservedKey(v) && AllUnicode(v) {
      RoundTrip(c, v);
    }
    if Decode(c, Encode(c, v)) == Some(Utc(v)) {
      SurvivorsAreUnreserved(c, v);
      DecodedIsClean(c, Encode(c, v));
      CleanIsUnicode(Utc(v));
      UtcKeepsShape(v);
    }
  }
}
