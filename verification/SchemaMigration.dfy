/** Schema migrations on a database without transactional DDL: guarded instructions that can be run
    again after a crash. */
module SchemaMigration {
  import opened Collections

  /** The named parts of a table with their definitions. Unique constraints count as indexes. */
  datatype Table = Table(columns: map<string, string>, indexes: map<string, string>, constraints: map<string, string>)

  type Schema = map<string, Table>

  datatype Instruction =
    | AddColumn(table: string, name: string, definition: string)
    | DropColumn(table: string, name: string)
    | CreateIndex(table: string, name: string, definition: string)
    | CreateUniqueConstraint(table: string, name: string, definition: string)
    | DropIndex(table: string, name: string)
    | DropUniqueConstraint(table: string, name: string)
    | DropConstraint(table: string, name: string)
    | CreateTable(table: string, columns: map<string, string>)
    | DropTable(table: string)

  /** What the database does; None when it raises. */
  function Raw(db: Schema, i: Instruction): Option<Schema> {
    match i
    case CreateTable(t, columns) => if t in db then None else Some(db[t := Table(columns, map[], map[])])
    case DropTable(t) => if t in db then Some(db - {t}) else None
    case _ =>
      if i.table !in db then None
      else
        var current := db[i.table];
        match i
        case AddColumn(t, name, definition) =>
          if name in current.columns then None
          else Some(db[t := current.(columns := current.columns[name := definition])])
        case DropColumn(t, name) =>
          if name !in current.columns then None else Some(db[t := current.(columns := current.columns - {name})])
        case CreateIndex(t, name, definition) =>
          if name in current.indexes then None
          else Some(db[t := current.(indexes := current.indexes[name := definition])])
        case CreateUniqueConstraint(t, name, definition) =>
          if name in current.indexes then None
          else Some(db[t := current.(indexes := current.indexes[name := definition])])
        case DropIndex(t, name) =>
          if name !in current.indexes then None else Some(db[t := current.(indexes := current.indexes - {name})])
        case DropUniqueConstraint(t, name) =>
          if name !in current.indexes then None else Some(db[t := current.(indexes := current.indexes - {name})])
        case DropConstraint(t, name) =>
          if name !in current.constraints then None
          else Some(db[t := current.(constraints := current.constraints - {name})])
  }

  datatype Verdict = Skip | Proceed | Raise

  /** The guard in front of each instruction, from the reflected metadata. Asking a missing table for
      its indexes or constraints raises; asking it for a column just finds none. */
  function Guard(metadata: Schema, i: Instruction): Verdict {
    var present := i.table in metadata;
    match i
    case AddColumn(t, name, _) => if present && name in metadata[t].columns then Skip else Proceed
    case DropColumn(t, name) => if present && name in metadata[t].columns then Proceed else Skip
    case CreateIndex(t, name, _) => if !present then Raise else if name in metadata[t].indexes then Skip else Proceed
    case CreateUniqueConstraint(t, name, _) =>
      if !present then Raise else if name in metadata[t].indexes then Skip else Proceed
    case DropIndex(t, name) => if !present then Raise else if name in metadata[t].indexes then Proceed else Skip
    case DropUniqueConstraint(t, name) =>
      if !present then Raise else if name in metadata[t].indexes then Proceed else Skip
    case DropConstraint(t, name) =>
      if !present then Raise else if name in metadata[t].constraints then Proceed else Skip
    case CreateTable(t, _) => if present then Skip else Proceed
    case DropTable(t) => if present then Proceed else Skip
  }

  /** One guarded instruction on a database whose metadata is up to date; None when it raises. */
  function Guarded(db: Schema, i: Instruction): Option<Schema> {
    match Guard(db, i)
    case Skip => Some(db)
    case Raise => None
    case Proceed => Raw(db, i)
  }

  class IdempotentOperations {
    var db: Schema
    var metadata: Schema

    /** Set up by reflecting the database. */
    constructor (db: Schema)
      ensures this.db == db && metadata == db
    {
      this.db := db;
      this.metadata := db;
    }

    method RefreshMetadata()
      modifies this
      ensures db == old(db) && metadata == db
    {
      metadata := map[];
      metadata := db;
    }

    /** Runs one instruction behind its guard and then refreshes the metadata, skipped or not; an
        exception leaves both as they were. */
    method Perform(i: Instruction) returns (ok: bool)
      requires metadata == db
      modifies this
      ensures metadata == db
      ensures ok == Guarded(old(db), i).Some?
      ensures db == match Guarded(old(db), i) case Some(s) => s case None => old(db)
    {
      match Guard(metadata, i) {
        case Raise => return false;
        case Skip =>
        case Proceed =>
          var changed := Raw(db, i);
          if changed.None? {
            return false;
          }
          db := changed.value;
      }
      RefreshMetadata();
      return true;
    }

    /** A migration stops at the first instruction that raises. */
    method Migrate(migration: seq<Instruction>) returns (ok: bool)
      requires metadata == db
      modifies this
      ensures metadata == db
      ensures (db, ok) == Execute(old(db), migration)
    {
      ghost var before := db;
      assert migration[..0] == [];
      for n := 0 to |migration|
        invariant metadata == db && Execute(before, migration[..n]) == (db, true)
      {
        assert migration[..n + 1][..n] == migration[..n];
        ok := Perform(migration[n]);
        if !ok {
          StopsAtFailure(before, migration, n);
          return false;
        }
      }
      assert migration[..|migration|] == migration;
      return true;
    }
  }

  /** The database after a migration, and whether it ran to its end. */
  function Execute(db: Schema, migration: seq<Instruction>): (Schema, bool) {
    if migration == [] then (db, true)
    else
      var before := Execute(db, migration[..|migration| - 1]);
      if !before.1 then before
      else
        match Guarded(before.0, migration[|migration| - 1])
        case Some(s) => (s, true)
        case None => (before.0, false)
  }

  lemma {:induction false} StopsAtFailure(db: Schema, migration: seq<Instruction>, n: nat)
    requires n < |migration| && Execute(db, migration[..n]).1
    requires Guarded(Execute(db, migration[..n]).0, migration[n]).None?
    ensures Execute(db, migration) == (Execute(db, migration[..n]).0, false)
    decreases |migration|
  {
    var init := migration[..|migration| - 1];
    if n < |migration| - 1 {
      assert init[..n] == migration[..n] && init[n] == migration[n];
      StopsAtFailure(db, init, n);
    }
  }

  // ----- one named part at a time -----

  datatype Key = Column(table: string, name: string) | Index(table: string, name: string)
    | Constraint(table: string, name: string)

  function Lookup(db: Schema, key: Key): Option<string> {
    if key.table !in db then None
    else
      match key
      case Column(t, name) => if name in db[t].columns then Some(db[t].columns[name]) else None
      case Index(t, name) => if name in db[t].indexes then Some(db[t].indexes[name]) else None
      case Constraint(t, name) => if name in db[t].constraints then Some(db[t].constraints[name]) else None
  }

  predicate OnTables(i: Instruction) { i.CreateTable? || i.DropTable? }

  function KeyOf(i: Instruction): Key
    requires !OnTables(i)
  {
    match i
    case AddColumn(t, name, _) => Column(t, name)
    case DropColumn(t, name) => Column(t, name)
    case CreateIndex(t, name, _) => Index(t, name)
    case CreateUniqueConstraint(t, name, _) => Index(t, name)
    case DropIndex(t, name) => Index(t, name)
    case DropUniqueConstraint(t, name) => Index(t, name)
    case DropConstraint(t, name) => Constraint(t, name)
  }

  predicate Creates(i: Instruction) { i.AddColumn? || i.CreateIndex? || i.CreateUniqueConstraint? }

  /** Whether an instruction is about a named part; dropping a table is about all its parts. */
  predicate Concerns(i: Instruction, key: Key)
    requires !i.CreateTable?
  {
    if i.DropTable? then i.table == key.table else KeyOf(i) == key
  }

  /** What an instruction makes of one named part: create it if absent, or drop it. */
  function Effect(i: Instruction, key: Key, part: Option<string>): Option<string>
    requires !i.CreateTable?
  {
    if !Concerns(i, key) then part
    else if Creates(i) then (if part.None? then Some(i.definition) else part)
    else None
  }

  ghost predicate NoTableCreation(migration: seq<Instruction>) {
    forall k :: 0 <= k < |migration| ==> !migration[k].CreateTable?
  }

  function EffectOfAll(migration: seq<Instruction>, key: Key, part: Option<string>): Option<string>
    requires NoTableCreation(migration)
  {
    if migration == [] then part
    else Effect(migration[|migration| - 1], key, EffectOfAll(migration[..|migration| - 1], key, part))
  }

  /** The instructions that raise on a missing table; dropping a column or a table just skips. */
  predicate NeedsTable(i: Instruction) { !i.DropColumn? && !OnTables(i) }

  function DroppedBy(i: Instruction): set<string> {
    if i.DropTable? then {i.table} else {}
  }

  function Dropped(migration: seq<Instruction>): set<string> {
    if migration == [] then {} else Dropped(migration[..|migration| - 1]) + DroppedBy(migration[|migration| - 1])
  }

  /** Whether an instruction raises depends only on which tables exist. */
  lemma GuardedEffect(db: Schema, i: Instruction, key: Key)
    requires !i.CreateTable?
    ensures Guarded(db, i).None? <==> NeedsTable(i) && i.table !in db
    ensures Guarded(db, i).Some? ==> Guarded(db, i).value.Keys == db.Keys - DroppedBy(i)
    ensures Guarded(db, i).Some? ==> Lookup(Guarded(db, i).value, key) == Effect(i, key, Lookup(db, key))
  {
  }

  /** Creating a table that is there is skipped; otherwise it has the given columns and nothing else.
      Dropping one that is gone is skipped. No other table changes. */
  lemma TablesAreGuarded(db: Schema, t: string, columns: map<string, string>)
    ensures Guarded(db, CreateTable(t, columns)) == Some(if t in db then db else db[t := Table(columns, map[], map[])])
    ensures Guarded(db, DropTable(t)) == Some(db - {t})
  {
    assert t !in db ==> db - {t} == db;
  }

  /** On a table that is there: a column, index or unique constraint is created with its definition unless
      one of that name is there, and dropped if it is. */
  lemma PartsAreGuarded(db: Schema, t: string, name: string, definition: string)
    requires t in db
    ensures var i := AddColumn(t, name, definition);
      Guarded(db, i).Some? && Lookup(Guarded(db, i).value, Column(t, name))
        == if name in db[t].columns then Some(db[t].columns[name]) else Some(definition)
    ensures forall i | i in [CreateIndex(t, name, definition), CreateUniqueConstraint(t, name, definition)] ::
      Guarded(db, i).Some? && Lookup(Guarded(db, i).value, Index(t, name))
        == if name in db[t].indexes then Some(db[t].indexes[name]) else Some(definition)
    ensures Guarded(db, DropColumn(t, name)).Some? && name !in Guarded(db, DropColumn(t, name)).value[t].columns
    ensures forall i | i in [DropIndex(t, name), DropUniqueConstraint(t, name)] ::
      Guarded(db, i).Some? && t in Guarded(db, i).value && name !in Guarded(db, i).value[t].indexes
    ensures Guarded(db, DropConstraint(t, name)).Some?
    ensures name !in Guarded(db, DropConstraint(t, name)).value[t].constraints
  {
  }

  lemma {:induction false} ExecuteEffect(db: Schema, migration: seq<Instruction>, key: Key)
    requires NoTableCreation(migration) && Execute(db, migration).1
    ensures Lookup(Execute(db, migration).0, key) == EffectOfAll(migration, key, Lookup(db, key))
  {
    if migration != [] {
      ExecuteEffect(db, migration[..|migration| - 1], key);
      GuardedEffect(Execute(db, migration[..|migration| - 1]).0, migration[|migration| - 1], key);
    }
  }

  lemma SameLookupsSameSchema(db: Schema, db': Schema)
    requires db.Keys == db'.Keys
    requires forall key: Key :: key.table in db ==> Lookup(db, key) == Lookup(db', key)
    ensures db == db'
  {
    forall t | t in db ensures db[t] == db'[t] {
      forall name ensures name in db[t].columns <==> name in db'[t].columns
        ensures name in db[t].columns ==> db[t].columns[name] == db'[t].columns[name]
      { assert Lookup(db, Column(t, name)) == Lookup(db', Column(t, name)); }
      forall name ensures name in db[t].indexes <==> name in db'[t].indexes
        ensures name in db[t].indexes ==> db[t].indexes[name] == db'[t].indexes[name]
      { assert Lookup(db, Index(t, name)) == Lookup(db', Index(t, name)); }
      forall name ensures name in db[t].constraints <==> name in db'[t].constraints
        ensures name in db[t].constraints ==> db[t].constraints[name] == db'[t].constraints[name]
      { assert Lookup(db, Constraint(t, name)) == Lookup(db', Constraint(t, name)); }
      assert db[t].columns == db'[t].columns;
      assert db[t].indexes == db'[t].indexes;
      assert db[t].constraints == db'[t].constraints;
    }
  }

  // ----- running a front part first changes nothing -----

  ghost predicate Drops(migration: seq<Instruction>, key: Key)
    requires NoTableCreation(migration)
  {
    exists k :: 0 <= k < |migration| && Concerns(migration[k], key) && !Creates(migration[k])
  }

  /** A migration that drops a part somewhere leaves it in a state of its own making. */
  lemma {:induction false} DropForgets(migration: seq<Instruction>, key: Key, a: Option<string>, b: Option<string>)
    requires NoTableCreation(migration) && Drops(migration, key)
    ensures EffectOfAll(migration, key, a) == EffectOfAll(migration, key, b)
  {
    var init, last := migration[..|migration| - 1], migration[|migration| - 1];
    if Concerns(last, key) && !Creates(last) {
    } else {
      var k :| 0 <= k < |migration| && Concerns(migration[k], key) && !Creates(migration[k]);
      assert init[k] == migration[k];
      DropForgets(init, key, a, b);
    }
  }

  /** Without a drop a part that is there stays as it is. */
  lemma {:induction false} KeepsExisting(migration: seq<Instruction>, key: Key, definition: string)
    requires NoTableCreation(migration) && !Drops(migration, key)
    ensures EffectOfAll(migration, key, Some(definition)) == Some(definition)
  {
    if migration != [] {
      var init := migration[..|migration| - 1];
      assert !Drops(init, key) by {
        assert forall k :: 0 <= k < |init| ==> init[k] == migration[k];
      }
      KeepsExisting(init, key, definition);
      assert Concerns(migration[|migration| - 1], key) ==> Creates(migration[|migration| - 1]);
    }
  }

  lemma {:induction false} EffectSplits(a: seq<Instruction>, b: seq<Instruction>, key: Key, part: Option<string>)
    requires NoTableCreation(a + b)
    ensures NoTableCreation(a) && NoTableCreation(b)
    ensures EffectOfAll(a + b, key, part) == EffectOfAll(b, key, EffectOfAll(a, key, part))
  {
    assert forall k :: 0 <= k < |a| ==> a[k] == (a + b)[k];
    assert forall k :: 0 <= k < |b| ==> b[k] == (a + b)[|a| + k];
    if b == [] {
      assert a + b == a;
    } else {
      var init := b[..|b| - 1];
      assert (a + b)[..|a + b| - 1] == a + init;
      EffectSplits(a, init, key, part);
    }
  }

  lemma NoDropInParts(a: seq<Instruction>, b: seq<Instruction>, key: Key)
    requires NoTableCreation(a) && NoTableCreation(b) && NoTableCreation(a + b) && !Drops(a + b, key)
    ensures !Drops(a, key) && !Drops(b, key)
  {
    assert forall k :: 0 <= k < |a| ==> (a + b)[k] == a[k];
    assert forall k :: 0 <= k < |b| ==> (a + b)[|a| + k] == b[k];
  }

  /** Without a drop, running a front part first changes nothing. */
  lemma FrontKept(a: seq<Instruction>, b: seq<Instruction>, key: Key, part: Option<string>)
    requires NoTableCreation(a) && NoTableCreation(b) && NoTableCreation(a + b) && !Drops(a + b, key)
    ensures EffectOfAll(a + b, key, EffectOfAll(a, key, part)) == EffectOfAll(a + b, key, part)
  {
    var between := EffectOfAll(a, key, part);
    EffectSplits(a, b, key, part);
    NoDropInParts(a, b, key);
    if part.Some? { KeepsExisting(a, key, part.value); }
    if between.Some? {
      KeepsExisting(b, key, between.value);
      KeepsExisting(a + b, key, between.value);
    }
  }

  lemma FrontIsAbsorbed(migration: seq<Instruction>, k: nat, key: Key, part: Option<string>)
    requires NoTableCreation(migration) && k <= |migration|
    ensures EffectOfAll(migration, key, EffectOfAll(migration[..k], key, part)) == EffectOfAll(migration, key, part)
  {
    if Drops(migration, key) {
      DropForgets(migration, key, EffectOfAll(migration[..k], key, part), part);
    } else {
      assert migration == migration[..k] + migration[k..];
      FrontKept(migration[..k], migration[k..], key, part);
    }
  }

  /** A crash after `k` instructions, or at the instruction that raises. */
  function Interrupted(db: Schema, migration: seq<Instruction>, k: nat): Schema
    requires k <= |migration|
  {
    Execute(db, migration[..k]).0
  }

  function AfterCrashes(db: Schema, migration: seq<Instruction>, crashes: seq<nat>): Schema
    requires forall k :: 0 <= k < |crashes| ==> crashes[k] <= |migration|
  {
    if crashes == [] then db
    else Interrupted(AfterCrashes(db, migration, crashes[..|crashes| - 1]), migration, crashes[|crashes| - 1])
  }

  predicate Raises(i: Instruction, tables: set<string>) { NeedsTable(i) && i.table !in tables }

  /** How many instructions run before one raises. */
  function Completed(tables: set<string>, migration: seq<Instruction>): (n: nat)
    ensures n <= |migration|
  {
    if migration == [] then 0
    else
      var init, last := migration[..|migration| - 1], migration[|migration| - 1];
      var n := Completed(tables, init);
      if n < |init| || Raises(last, tables - Dropped(init)) then n else n + 1
  }

  lemma {:induction false} CompletedOfFront(tables: set<string>, migration: seq<Instruction>, k: nat)
    requires k <= |migration|
    ensures Completed(tables, migration[..k]) == Min(k, Completed(tables, migration))
  {
    if k == |migration| {
      assert migration[..k] == migration;
    } else {
      var init := migration[..|migration| - 1];
      assert init[..k] == migration[..k];
      CompletedOfFront(tables, init, k);
    }
  }

  lemma {:induction false} DroppedOfFront(migration: seq<Instruction>, k: nat)
    requires k <= |migration|
    ensures Dropped(migration[..k]) <= Dropped(migration)
  {
    if k == |migration| {
      assert migration[..k] == migration;
    } else {
      var init := migration[..|migration| - 1];
      assert init[..k] == migration[..k];
      DroppedOfFront(init, k);
    }
  }

  ghost predicate ExecutesTo(db: Schema, migration: seq<Instruction>, n: nat)
    requires n <= |migration|
  {
    && Execute(db, migration) == (Execute(db, migration[..n]).0, n == |migration|)
    && Execute(db, migration[..n]).1 && Execute(db, migration).0.Keys == db.Keys - Dropped(migration[..n])
  }

  /** Execution is the complete execution of the instructions before the one that raises. */
  lemma {:induction false} ExecutesCompleted(db: Schema, migration: seq<Instruction>)
    requires NoTableCreation(migration)
    ensures ExecutesTo(db, migration, Completed(db.Keys, migration))
  {
    if migration == [] {
      assert migration[..0] == [];
    } else {
      ExecutesCompleted(db, migration[..|migration| - 1]);
      OneMoreInstruction(db, migration);
    }
  }

  lemma OneMoreInstruction(db: Schema, migration: seq<Instruction>)
    requires migration != [] && NoTableCreation(migration)
    requires var init := migration[..|migration| - 1]; ExecutesTo(db, init, Completed(db.Keys, init))
    ensures ExecutesTo(db, migration, Completed(db.Keys, migration))
  {
    var init, last := migration[..|migration| - 1], migration[|migration| - 1];
    var n := Completed(db.Keys, init);
    assert init[..n] == migration[..n];
    if n == |init| {
      assert init[..n] == init && migration[..|migration|] == migration;
      GuardedEffect(Execute(db, init).0, last, Column("", ""));
    }
  }

  // ----- running again -----

  /** No instruction that needs its table is on one of `tables`. */
  ghost predicate NeedsNoneOf(migration: seq<Instruction>, tables: set<string>) {
    forall j :: 0 <= j < |migration| && NeedsTable(migration[j]) ==> migration[j].table !in tables
  }

  lemma NeedsNoneStep(migration: seq<Instruction>, tables: set<string>)
    requires migration != []
    ensures var init, last := migration[..|migration| - 1], migration[|migration| - 1];
      NeedsNoneOf(migration, tables) <==> NeedsNoneOf(init, tables) && (NeedsTable(last) ==> last.table !in tables)
  {
    var init := migration[..|migration| - 1];
    assert forall j :: 0 <= j < |init| ==> init[j] == migration[j];
  }

  /** With some tables gone a migration gets no further, and as far as before exactly when nothing it
      ran needs them. */
  lemma {:induction false} CompletedWithout(tables: set<string>, gone: set<string>, migration: seq<Instruction>)
    ensures Completed(tables - gone, migration) <= Completed(tables, migration)
    ensures Completed(tables - gone, migration) == Completed(tables, migration)
      <==> NeedsNoneOf(migration[..Completed(tables, migration)], gone)
  {
    if migration != [] {
      var init := migration[..|migration| - 1];
      var n := Completed(tables, init);
      CompletedWithout(tables, gone, init);
      assert migration[..n] == init[..n];
      if n == |init| {
        assert init[..n] == init && migration[..|migration|] == migration;
        NeedsNoneStep(migration, gone);
      }
    }
  }

  /** After a crash behind `k` instructions, nothing that has to run again needs a table dropped by
      then. */
  ghost predicate Recoverable(tables: set<string>, migration: seq<Instruction>, k: nat)
    requires k <= |migration|
  {
    var n := Completed(tables, migration);
    NeedsNoneOf(migration[..n], Dropped(migration[..Min(k, n)]))
  }

  lemma CoreIsAbsorbed(db: Schema, core: seq<Instruction>, k: nat)
    requires NoTableCreation(core) && k <= |core|
    requires Execute(db, core).1 && Execute(db, core[..k]).1 && Execute(Execute(db, core[..k]).0, core).1
    requires Execute(Execute(db, core[..k]).0, core).0.Keys == Execute(db, core).0.Keys
    ensures Execute(Execute(db, core[..k]).0, core).0 == Execute(db, core).0
  {
    var s := Execute(db, core[..k]).0;
    forall key: Key ensures Lookup(Execute(s, core).0, key) == Lookup(Execute(db, core).0, key) {
      ExecuteEffect(db, core[..k], key);
      ExecuteEffect(s, core, key);
      ExecuteEffect(db, core, key);
      FrontIsAbsorbed(core, k, key, Lookup(db, key));
    }
    SameLookupsSameSchema(Execute(s, core).0, Execute(db, core).0);
  }

  /** The state a crash leaves is that of a complete run of a front part. */
  lemma InterruptedIs(db: Schema, migration: seq<Instruction>, k: nat)
    requires NoTableCreation(migration) && k <= |migration|
    ensures var done := Min(k, Completed(db.Keys, migration));
      && Interrupted(db, migration, k) == Execute(db, migration[..done]).0
      && Execute(db, migration[..done]).1
      && Interrupted(db, migration, k).Keys == db.Keys - Dropped(migration[..done])
  {
    var done := Min(k, Completed(db.Keys, migration));
    CompletedOfFront(db.Keys, migration, k);
    ExecutesCompleted(db, migration[..k]);
    assert migration[..k][..done] == migration[..done];
  }

  /** One crash: the second run gets as far as a single one exactly when the crash is recoverable, and
      then it gives the same schema. */
  lemma CrashIsAbsorbed(db: Schema, migration: seq<Instruction>, k: nat)
    requires NoTableCreation(migration) && k <= |migration|
    ensures var s := Interrupted(db, migration, k);
      && (Completed(s.Keys, migration) == Completed(db.Keys, migration) <==> Recoverable(db.Keys, migration, k))
      && (Recoverable(db.Keys, migration, k) ==> Execute(s, migration) == Execute(db, migration))
  {
    var n := Completed(db.Keys, migration);
    var done, s := Min(k, n), Interrupted(db, migration, k);
    InterruptedIs(db, migration, k);
    CompletedWithout(db.Keys, Dropped(migration[..done]), migration);
    if Recoverable(db.Keys, migration, k) {
      ExecutesCompleted(db, migration);
      ExecutesCompleted(s, migration);
      RecoveredKeys(db, migration, k);
      assert migration[..n][..done] == migration[..done];
      CoreIsAbsorbed(db, migration[..n], done);
    }
  }

  lemma RecoveredKeys(db: Schema, migration: seq<Instruction>, k: nat)
    requires NoTableCreation(migration) && k <= |migration| && Recoverable(db.Keys, migration, k)
    requires Completed(Interrupted(db, migration, k).Keys, migration) == Completed(db.Keys, migration)
    ensures Execute(Interrupted(db, migration, k), migration).0.Keys == Execute(db, migration).0.Keys
  {
    var n := Completed(db.Keys, migration);
    InterruptedIs(db, migration, k);
    ExecutesCompleted(db, migration);
    ExecutesCompleted(Interrupted(db, migration, k), migration);
    assert migration[..n][..Min(k, n)] == migration[..Min(k, n)];
    DroppedOfFront(migration[..n], Min(k, n));
  }

  /** Crash recovery: stopping a guarded migration at any recoverable points and then running it fully
      gives the same schema, and the same success, as one full run. */
  lemma {:induction false} CrashRecovery(db: Schema, migration: seq<Instruction>, crashes: seq<nat>)
    requires NoTableCreation(migration)
    requires forall k :: 0 <= k < |crashes| ==> crashes[k] <= |migration| && Recoverable(db.Keys, migration, crashes[k])
    ensures Execute(AfterCrashes(db, migration, crashes), migration) == Execute(db, migration)
    ensures Completed(AfterCrashes(db, migration, crashes).Keys, migration) == Completed(db.Keys, migration)
  {
    if crashes != [] {
      var init := crashes[..|crashes| - 1];
      CrashRecovery(db, migration, init);
      CrashIsAbsorbed(AfterCrashes(db, migration, init), migration, crashes[|crashes| - 1]);
    }
  }

  /** Crash recovery without instructions on whole tables: every crash is recoverable. */
  lemma CrashRecoveryOnPresentTables(db: Schema, migration: seq<Instruction>, crashes: seq<nat>)
    requires forall k :: 0 <= k < |migration| ==> !OnTables(migration[k])
    requires forall k :: 0 <= k < |crashes| ==> crashes[k] <= |migration|
    ensures Execute(AfterCrashes(db, migration, crashes), migration) == Execute(db, migration)
  {
    forall k | 0 <= k < |crashes| ensures Recoverable(db.Keys, migration, crashes[k]) {
      NothingDropped(migration[..Min(crashes[k], Completed(db.Keys, migration))]);
    }
    CrashRecovery(db, migration, crashes);
  }

  lemma {:induction false} NothingDropped(migration: seq<Instruction>)
    requires forall k :: 0 <= k < |migration| ==> !OnTables(migration[k])
    ensures Dropped(migration) == {}
  {
    if migration != [] { NothingDropped(migration[..|migration| - 1]); }
  }

  lemma OneMoreCrash(db: Schema, migration: seq<Instruction>, k: nat)
    requires NoTableCreation(migration) && k <= |migration|
    ensures var again := Execute(Interrupted(db, migration, k), migration);
      && (Execute(db, migration).1 ==> (again.1 <==> NeedsNoneOf(migration, Dropped(migration[..k]))))
      && (again.1 ==> again == Execute(db, migration))
  {
    var s := Interrupted(db, migration, k);
    var n := Completed(db.Keys, migration);
    ExecutesCompleted(db, migration);
    ExecutesCompleted(s, migration);
    CrashIsAbsorbed(db, migration, k);
    InterruptedIs(db, migration, k);
    CompletedWithout(db.Keys, Dropped(migration[..Min(k, n)]), migration);
    assert migration[..|migration|] == migration;
  }

  /** A migration that succeeds when run once succeeds after crashes exactly when no crash came after
      dropping a table that some instruction needs; and then the schema is the same. */
  lemma {:induction false} CrashRecoveryExactly(db: Schema, migration: seq<Instruction>, crashes: seq<nat>)
    requires NoTableCreation(migration) && Execute(db, migration).1
    requires forall k :: 0 <= k < |crashes| ==> crashes[k] <= |migration|
    ensures var again := Execute(AfterCrashes(db, migration, crashes), migration);
      && (again.1 <==> forall k :: 0 <= k < |crashes| ==> NeedsNoneOf(migration, Dropped(migration[..crashes[k]])))
      && (again.1 ==> again == Execute(db, migration))
  {
    if crashes != [] {
      var n := |crashes| - 1;
      CrashRecoveryExactly(db, migration, crashes[..n]);
      OneMoreCrash(AfterCrashes(db, migration, crashes[..n]), migration, crashes[n]);
      assert forall k :: 0 <= k < n ==> crashes[k] == crashes[..n][k];
    }
  }

  /** A migration that ends by dropping a table can be run again exactly when its other instructions on
      that table only drop columns. */
  lemma DroppedTableRecoversExactly(db: Schema, core: seq<Instruction>, t: string)
    requires forall k :: 0 <= k < |core| ==> !OnTables(core[k])
    requires Execute(db, core + [DropTable(t)]).1
    ensures Execute(Execute(db, core + [DropTable(t)]).0, core + [DropTable(t)]).1
       <==> forall k :: 0 <= k < |core| && core[k].table == t ==> core[k].DropColumn?
  {
    var m := core + [DropTable(t)];
    assert m[..|core|] == core && m[..|m|] == m;
    NothingDropped(core);
    OneMoreCrash(db, m, |m|);
    assert forall k :: 0 <= k < |core| ==> m[k] == core[k];
  }

  /** The smallest migration that cannot be run again: once the table is gone, its first instruction
      raises. */
  lemma DroppedTableBreaksRecovery(name: string, definition: string)
    ensures var db: Schema := map["t" := Table(map[], map[], map[])];
      var migration := [AddColumn("t", name, definition), DropTable("t")];
      Execute(db, migration).1 && !Execute(Interrupted(db, migration, 2), migration).1
  {
    var db: Schema := map["t" := Table(map[], map[], map[])];
    var migration := [AddColumn("t", name, definition), DropTable("t")];
    var first := migration[..1];
    assert first == [AddColumn("t", name, definition)] && first[..0] == [] && migration[..2] == migration;
    assert Execute(db, first).1;
    assert Execute(db, first).0.Keys == {"t"};
    var gone := Execute(db, migration).0;
    assert gone == Execute(db, first).0 - {"t"};
    assert gone.Keys == {};
    assert gone == map[];
    assert !Execute(map[], first).1;
  }

  /** The database itself refuses to create what is there and to drop what is not. */
  lemma RawRefusesExactly(db: Schema, i: Instruction)
    ensures OnTables(i) ==> (Raw(db, i).None? <==> (i.CreateTable? <==> i.table in db))
    ensures !OnTables(i) ==>
      (Raw(db, i).None? <==> i.table !in db || (Creates(i) <==> Lookup(db, KeyOf(i)).Some?))
  {
  }

  /** Without the guards a migration cannot be run again: the database refuses to add the column. */
  lemma UnguardedCannotBeRepeated(db: Schema, t: string, name: string, definition: string)
    requires t in db && name !in db[t].columns
    ensures Raw(db, AddColumn(t, name, definition)).Some?
    ensures Raw(Raw(db, AddColumn(t, name, definition)).value, AddColumn(t, name, definition)).None?
    ensures Guarded(Raw(db, AddColumn(t, name, definition)).value, AddColumn(t, name, definition))
         == Raw(db, AddColumn(t, name, definition))
  {
  }
}
