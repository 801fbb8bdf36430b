/** The schema migration run at start-up (app.py:148-304), on the column list
    `PRAGMA table_info` reports: the expected columns, the two rebuild tests,
    the column mapping of a rebuild, and `ensure_schema_and_migrate`. */
module Schema {
  import opened Wrappers
  import opened Text

  /** One row of `PRAGMA table_info`: name, declared type, the NOT NULL flag and
      the default's SQL text. */
  datatype Column = Column(name: string, ctype: string, notnull: int, dflt: Option<string>)

  /** Entry `j` of `EXPECTED_COLUMNS` as `PRAGMA table_info` reports it once
      `CREATE TABLE` has declared it. */
  function Expected(j: nat): Column
    requires j < 13
  {
    if j == 0 then Column("id", "INTEGER", 0, None)
    else if j == 1 then Column("name", "TEXT", 1, None)
    else if j == 2 then Column("pillar", "TEXT", 1, None)
    else if j == 3 then Column("priority", "INTEGER", 0, Some("5"))
    else if j == 4 then Column("description", "TEXT", 0, None)
    else if j == 5 then Column("owner", "TEXT", 0, None)
    else if j == 6 then Column("status", "TEXT", 0, None)
    else if j == 7 then Column("start_date", "TEXT", 0, None)
    else if j == 8 then Column("due_date", "TEXT", 0, None)
    else if j == 9 then Column("plainsware_project", "TEXT", 0, Some("'No'"))
    else if j == 10 then Column("plainsware_number", "TEXT", 0, None)
    else if j == 11 then Column("created_at", "TEXT", 1, Some("CURRENT_TIMESTAMP"))
    else Column("updated_at", "TEXT", 1, Some("CURRENT_TIMESTAMP"))
  }

  /** The table as the program declares it, in the order of `EXPECTED_COLUMNS`. */
  const CANONICAL: seq<Column> := [
    Expected(0), Expected(1), Expected(2), Expected(3), Expected(4), Expected(5), Expected(6),
    Expected(7), Expected(8), Expected(9), Expected(10), Expected(11), Expected(12)
  ]

  lemma CanonicalAt()
    ensures |CANONICAL| == 13
    ensures forall j :: 0 <= j < 13 ==> CANONICAL[j] == Expected(j)
  {
  }

  /** The keys of `EXPECTED_COLUMNS`. */
  const EXPECTED_NAMES: set<string> := NameSet(CANONICAL)

  /** The expected columns the migration never adds. */
  const NOT_ADDED: set<string> := {"id", "name", "pillar"}

  /** `set(info["name"])` */
  function NameSet(info: seq<Column>): set<string> {
    set c | c in info :: c.name
  }

  /** Row `k` is the first row named `name`. */
  predicate FirstNamed(info: seq<Column>, name: string, k: int) {
    0 <= k < |info| && info[k].name == name && forall j :: 0 <= j < k ==> info[j].name != name
  }

  /** `info[info["name"] == name].iloc[0]`, or `None` when no row has that name. */
  function Find(info: seq<Column>, name: string): (r: Option<Column>)
    ensures r.Some? ==> r.value in info && r.value.name == name
    ensures r.None? <==> name !in NameSet(info)
  {
    if info == [] then None
    else if info[0].name == name then Some(info[0])
    else
      assert forall c :: c in info <==> c == info[0] || c in info[1..];
      Find(info[1..], name)
  }

  /** The row `Find` gives is the first row with that name. */
  lemma {:induction false} FindFirst(info: seq<Column>, name: string)
    ensures Find(info, name).Some? ==> exists k :: FirstNamed(info, name, k) && Find(info, name).value == info[k]
    ensures forall k :: FirstNamed(info, name, k) ==> Find(info, name) == Some(info[k])
  {
    if info == [] {
    } else if info[0].name == name {
      assert FirstNamed(info, name, 0);
    } else {
      FindFirst(info[1..], name);
      assert forall k :: FirstNamed(info, name, k) ==> k > 0 && FirstNamed(info[1..], name, k - 1);
      assert forall k :: FirstNamed(info[1..], name, k) ==> FirstNamed(info, name, k + 1);
    }
  }

  /** Columns appended after the existing ones do not change which row `Find`
      sees for a name already present. */
  lemma {:induction false} FindAppend(info: seq<Column>, c: Column, name: string)
    ensures Find(info + [c], name) ==
              if name in NameSet(info) then Find(info, name)
              else if c.name == name then Some(c)
              else None
  {
    if info == [] {
      assert [c][1..] == [];
    } else {
      assert (info + [c])[1..] == info[1..] + [c];
      FindAppend(info[1..], c, name);
      assert forall d :: d in info <==> d == info[0] || d in info[1..];
    }
  }

  /** A `created_at` row that does not force a rebuild. */
  predicate CreatedAtFine(c: Column) {
    !(c.notnull == 1 && (c.dflt.None? || Strip(c.dflt.value) == ""))
  }

  /** A `plainsware_number` row that does not force a rebuild. */
  predicate PlainswareTypeFine(c: Column) {
    Upper(Strip(c.ctype)) == "TEXT"
  }

  /** `_needs_rebuild_due_to_created_at`: the first `created_at` row is NOT NULL
      without a default (none, or blank text). */
  predicate NeedsRebuildCreatedAt(info: seq<Column>) {
    var c := Find(info, "created_at");
    c.Some? && !CreatedAtFine(c.value)
  }

  /** The `created_at` test reads the first row of that name. */
  lemma NeedsRebuildCreatedAtMeans(info: seq<Column>)
    ensures NeedsRebuildCreatedAt(info) <==>
              exists k :: FirstNamed(info, "created_at", k) && info[k].notnull == 1
                          && (info[k].dflt.None? || Strip(info[k].dflt.value) == [])
  {
    FindFirst(info, "created_at");
  }

  /** `_needs_rebuild_due_to_plainsware_number_type`: the first
      `plainsware_number` row is not declared TEXT (ignoring surrounding
      whitespace and case). */
  predicate NeedsRebuildPlainswareType(info: seq<Column>) {
    var c := Find(info, "plainsware_number");
    c.Some? && !PlainswareTypeFine(c.value)
  }

  /** The `plainsware_number` test reads the first row of that name. */
  lemma NeedsRebuildPlainswareTypeMeans(info: seq<Column>)
    ensures NeedsRebuildPlainswareType(info) <==>
              exists k :: FirstNamed(info, "plainsware_number", k) && Upper(Strip(info[k].ctype)) != "TEXT"
  {
    FindFirst(info, "plainsware_number");
  }

  lemma TimestampDefaultFine()
    ensures CreatedAtFine(Column("created_at", "TEXT", 1, Some("CURRENT_TIMESTAMP")))
  {
    assert "CURRENT_TIMESTAMP"[0] == 'C';
  }

  lemma TextTypeFine()
    ensures PlainswareTypeFine(Column("plainsware_number", "TEXT", 0, None))
  {
    var t := "TEXT";
    assert !IsSpace(t[0]) && !IsSpace(t[3]);
    StripTrimmed(t);
    forall k | 0 <= k < 4 ensures UpperChar(t[k]) == t[k] { }
    assert Upper(t) == t;
  }

  /** The expected column named `created_at` is one the rebuild test accepts. */
  lemma CanonicalCreatedAtFine()
    ensures forall c :: c in CANONICAL && c.name == "created_at" ==> CreatedAtFine(c)
  {
    TimestampDefaultFine();
    CanonicalAt();
    forall c | c in CANONICAL && c.name == "created_at" ensures c == Expected(11) {
      var j :| 0 <= j < 13 && CANONICAL[j] == c;
      OnlyCreatedAt(j);
    }
  }

  /** The expected column named `plainsware_number` is one the rebuild test
      accepts. */
  lemma CanonicalPlainswareTypeFine()
    ensures forall c :: c in CANONICAL && c.name == "plainsware_number" ==> PlainswareTypeFine(c)
  {
    forall c | c in CANONICAL && c.name == "plainsware_number" ensures PlainswareTypeFine(c) {
      PlainswareNumberColumn(c);
      TextTypeFine();
    }
  }

  lemma PlainswareNumberColumn(c: Column)
    requires c in CANONICAL && c.name == "plainsware_number"
    ensures c == Column("plainsware_number", "TEXT", 0, None)
  {
    CanonicalAt();
    var j :| 0 <= j < 13 && CANONICAL[j] == c;
    OnlyPlainswareNumber(j);
  }

  lemma OnlyCreatedAt(j: nat)
    requires j < 13 && Expected(j).name == "created_at"
    ensures j == 11
  {
  }

  lemma OnlyPlainswareNumber(j: nat)
    requires j < 13 && Expected(j).name == "plainsware_number"
    ensures j == 10
  {
  }

  /** The two legacy targets are expected columns the migration may add. */
  lemma LegacyTargetsExpected()
    ensures "plainsware_project" in EXPECTED_NAMES - NOT_ADDED
    ensures "plainsware_number" in EXPECTED_NAMES - NOT_ADDED
  {
    assert CANONICAL[9] in CANONICAL && CANONICAL[10] in CANONICAL;
  }

  /** The canonical table needs no rebuild. */
  lemma CanonicalNeedsNoRebuild()
    ensures !NeedsRebuildCreatedAt(CANONICAL) && !NeedsRebuildPlainswareType(CANONICAL)
  {
    CanonicalCreatedAtFine();
    CanonicalPlainswareTypeFine();
  }

  // -------------------------------------------------- _rebuild_projects_table

  /** `legacy_map` */
  function Legacy(col: string): Option<string> {
    if col == "plainsware_proj" then Some("plainsware_project")
    else if col == "plainsware_num" then Some("plainsware_number")
    else None
  }

  lemma LegacyNameNotExpected(j: nat)
    requires j < 13
    ensures Expected(j).name != "plainsware_proj" && Expected(j).name != "plainsware_num"
  {
  }

  /** The legacy names are not expected columns. */
  lemma LegacyNotExpected()
    ensures "plainsware_proj" !in EXPECTED_NAMES && "plainsware_num" !in EXPECTED_NAMES
  {
    CanonicalAt();
    forall c | c in CANONICAL ensures c.name != "plainsware_proj" && c.name != "plainsware_num" {
      var j :| 0 <= j < 13 && CANONICAL[j] == c;
      LegacyNameNotExpected(j);
    }
  }

  /** Whether the rebuild copies an old column: not `id`, and either expected or
      a legacy name of an expected column. */
  predicate Kept(col: string) {
    col != "id" && (col in EXPECTED_NAMES || (Legacy(col).Some? && Legacy(col).value in EXPECTED_NAMES))
  }

  /** The new column an old column is copied into. */
  function Target(col: string): string {
    if col in EXPECTED_NAMES then col
    else if Legacy(col).Some? then Legacy(col).value
    else col
  }

  /** `keep_old`: the old columns the rebuild copies, in table order. */
  function KeptColumns(cols: seq<string>): (r: seq<string>)
    ensures forall c :: c in r <==> c in cols && Kept(c)
  {
    if cols == [] then []
    else
      var pre := cols[..|cols| - 1];
      assert cols == pre + [cols[|cols| - 1]];
      KeptColumns(pre) + (if Kept(cols[|cols| - 1]) then [cols[|cols| - 1]] else [])
  }

  /** The loop of `_rebuild_projects_table` that builds `keep_old` and `keep_new`. */
  method RebuildMapping(oldCols: seq<string>) returns (keepOld: seq<string>, keepNew: seq<string>)
    ensures keepOld == KeptColumns(oldCols)
    ensures |keepNew| == |keepOld|
    ensures forall i :: 0 <= i < |keepOld| ==> keepNew[i] == Target(keepOld[i])
  {
    keepOld, keepNew := [], [];
    for i := 0 to |oldCols|
      invariant keepOld == KeptColumns(oldCols[..i])
      invariant |keepNew| == |keepOld|
      invariant forall k :: 0 <= k < |keepOld| ==> keepNew[k] == Target(keepOld[k])
    {
      var col := oldCols[i];
      assert oldCols[..i + 1] == oldCols[..i] + [col];
      if col == "id" {
        // `continue`: the new table numbers its rows afresh
      } else if col in EXPECTED_NAMES {
        keepOld, keepNew := keepOld + [col], keepNew + [col];
      } else if Legacy(col).Some? && Legacy(col).value in EXPECTED_NAMES {
        keepOld, keepNew := keepOld + [col], keepNew + [Legacy(col).value];
      }
    }
    assert oldCols[..|oldCols|] == oldCols;
  }

  /** The rebuild never copies `id`, and copies every other expected column of
      the old table under its own name. */
  lemma MappingKeepsExpected(oldCols: seq<string>)
    ensures "id" !in KeptColumns(oldCols)
    ensures forall c :: c in oldCols && c in EXPECTED_NAMES && c != "id" ==> c in KeptColumns(oldCols) && Target(c) == c
  {
  }

  /** The rebuild copies a legacy column into the column it was renamed to. */
  lemma MappingRenamesLegacy(oldCols: seq<string>)
    ensures forall c :: c in oldCols && Legacy(c).Some? ==> c in KeptColumns(oldCols) && Target(c) == Legacy(c).value
  {
    LegacyTargetsExpected();
    LegacyNotExpected();
  }

  /** Every column the rebuild fills is an expected column other than `id`. */
  lemma MappingTargetsExpected(oldCols: seq<string>)
    ensures forall c :: c in KeptColumns(oldCols) ==> Target(c) in EXPECTED_NAMES && Target(c) != "id"
  {
    LegacyTargetsExpected();
  }

  // ---------------------------------------------- ensure_schema_and_migrate

  lemma NameSetCons(c: Column, s: seq<Column>)
    ensures NameSet([c] + s) == {c.name} + NameSet(s)
  {
    assert forall d :: d in [c] + s <==> d == c || d in s;
  }

  /** `ALTER TABLE ... RENAME COLUMN from TO to` on the column list. */
  function RenameColumn(info: seq<Column>, from: string, to: string): (r: seq<Column>)
    ensures |r| == |info|
    ensures from in NameSet(info) ==> NameSet(r) == NameSet(info) - {from} + {to}
    ensures from !in NameSet(info) ==> r == info
  {
    if info == [] then []
    else
      var rest := RenameColumn(info[1..], from, to);
      var c := if info[0].name == from then info[0].(name := to) else info[0];
      NameSetCons(c, rest);
      NameSetCons(info[0], info[1..]);
      assert info == [info[0]] + info[1..];
      [c] + rest
  }

  /** The table after `ensure_schema_and_migrate`, and how many times it rebuilt
      the table (each rebuild copies the rows into a new table and numbers them
      afresh). */
  datatype Migration = Migration(info: seq<Column>, rebuilds: nat)

  /** One of the two renames: tried when the old name `from` is in `existing` (the
      set read before the renames) and `to` is not. SQLite refuses the
      rename when it cannot rename columns at all (`renameWorks` false), when the
      old column is gone or the new one is there; a refusal rebuilds. */
  function TryRename(m: Migration, existing: set<string>, from: string, to: string, renameWorks: bool): (r: Migration)
    ensures !(from in existing && to !in existing) ==> r == m
    ensures r.rebuilds == m.rebuilds || r == Migration(CANONICAL, m.rebuilds + 1)
    ensures r.rebuilds == m.rebuilds && from in existing && to !in existing ==>
              NameSet(r.info) == NameSet(m.info) - {from} + {to}
    ensures r.rebuilds != m.rebuilds <==>
              from in existing && to !in existing && !(renameWorks && from in NameSet(m.info) && to !in NameSet(m.info))
  {
    if from in existing && to !in existing then
      if renameWorks && from in NameSet(m.info) && to !in NameSet(m.info) then
        m.(info := RenameColumn(m.info, from, to))
      else Migration(CANONICAL, m.rebuilds + 1)
    else m
  }

  /** The two rebuild tests, in the order they run. */
  function RebuildChecks(m: Migration): (r: Migration)
    ensures !NeedsRebuildCreatedAt(r.info) && !NeedsRebuildPlainswareType(r.info)
    ensures r.info == m.info || r.info == CANONICAL
  {
    CanonicalNeedsNoRebuild();
    var m1 := if NeedsRebuildCreatedAt(m.info) then Migration(CANONICAL, m.rebuilds + 1) else m;
    if NeedsRebuildPlainswareType(m1.info) then Migration(CANONICAL, m1.rebuilds + 1) else m1
  }

  /** The "add missing expected columns" loop from position `i` of
      `EXPECTED_COLUMNS` on: each expected column other than id, name and pillar
      that is not in `existing` is added; the first `ADD COLUMN` the database
      refuses (`rejected`) rebuilds the table and ends the loop. */
  function AddMissing(m: Migration, existing: set<string>, i: nat, rejected: set<string>): (r: Migration)
    requires i <= |CANONICAL|
    ensures r.rebuilds == m.rebuilds || r == Migration(CANONICAL, m.rebuilds + 1)
    ensures r.rebuilds == m.rebuilds ==> Appended(m.info, r.info, existing)
    decreases |CANONICAL| - i
  {
    if i == |CANONICAL| then m
    else
      var col := CANONICAL[i];
      assert col in CANONICAL;
      if col.name !in existing && col.name !in NOT_ADDED then
        if col.name in rejected then Migration(CANONICAL, m.rebuilds + 1)
        else
          var r := AddMissing(m.(info := m.info + [col]), existing, i + 1, rejected);
          AppendedStep(m.info, col, r.info, existing);
          r
      else AddMissing(m, existing, i + 1, rejected)
  }

  /** `after` is `before` followed by expected columns that were not in `existing`
      and are not among those the loop never adds. */
  predicate Appended(before: seq<Column>, after: seq<Column>, existing: set<string>) {
    && |before| <= |after| && after[..|before|] == before
    && forall k :: |before| <= k < |after| ==>
         after[k] in CANONICAL && after[k].name !in existing && after[k].name !in NOT_ADDED
  }

  lemma AppendedStep(before: seq<Column>, col: Column, after: seq<Column>, existing: set<string>)
    requires col in CANONICAL && col.name !in existing && col.name !in NOT_ADDED
    ensures Appended(before + [col], after, existing) ==> Appended(before, after, existing)
  {
    if Appended(before + [col], after, existing) {
      assert after[..|before|] == (after[..|before| + 1])[..|before|];
      assert after[|before|] == (before + [col])[|before|];
    }
  }

  /** `ensure_schema_and_migrate`, with the database's answers as parameters:
      `renameWorks` (whether `RENAME COLUMN` is supported) and `rejected` (the
      columns whose `ADD COLUMN` it refuses). An absent table has no columns. */
  function Migrate(info0: seq<Column>, renameWorks: bool, rejected: set<string>): (r: Migration)
    ensures Settled(r.info)
  {
    var m0 := Migration(if info0 == [] then CANONICAL else info0, 0);
    var existing := NameSet(m0.info);
    var m1 := TryRename(m0, existing, "plainsware_proj", "plainsware_project", renameWorks);
    var m2 := TryRename(m1, existing, "plainsware_num", "plainsware_number", renameWorks);
    var m3 := RebuildChecks(m2);
    assert m1.info != [] && m2.info != [] && m3.info != [];
    AddMissingResult(m3, NameSet(m3.info), 0, rejected);
    AddMissing(m3, NameSet(m3.info), 0, rejected)
  }

  /** The migration itself, step by step as the program takes them. */
  method EnsureSchema(info0: seq<Column>, renameWorks: bool, rejected: set<string>) returns (info: seq<Column>, rebuilds: nat)
    ensures Migration(info, rebuilds) == Migrate(info0, renameWorks, rejected)
  {
    info, rebuilds := info0, 0;
    if info == [] {
      info := CANONICAL;
    }
    var existing := NameSet(info);
    var m := TryRename(Migration(info, rebuilds), existing, "plainsware_proj", "plainsware_project", renameWorks);
    m := TryRename(m, existing, "plainsware_num", "plainsware_number", renameWorks);
    m := RebuildChecks(m);
    info, rebuilds := AddMissingColumns(m.info, m.rebuilds, rejected);
  }

  /** The closing loop of `ensure_schema_and_migrate`, over `EXPECTED_COLUMNS`
      against the column set read before it. */
  method AddMissingColumns(info0: seq<Column>, rebuilds0: nat, rejected: set<string>) returns (info: seq<Column>, rebuilds: nat)
    ensures Migration(info, rebuilds) == AddMissing(Migration(info0, rebuilds0), NameSet(info0), 0, rejected)
  {
    info, rebuilds := info0, rebuilds0;
    var existing := NameSet(info);
    var i := 0;
    while i < |CANONICAL|
      invariant 0 <= i <= |CANONICAL|
      invariant AddMissing(Migration(info, rebuilds), existing, i, rejected)
                == AddMissing(Migration(info0, rebuilds0), existing, 0, rejected)
    {
      var col := CANONICAL[i];
      if col.name !in existing && col.name !in NOT_ADDED {
        if col.name in rejected {
          info, rebuilds := CANONICAL, rebuilds + 1;
          break;
        }
        info := info + [col];
      }
      i := i + 1;
    }
  }

  // ------------------------------------------------------------- properties

  /** A table the migration leaves alone: it exists, holds every expected column
      the loop would add, and needs neither rebuild. */
  predicate Settled(info: seq<Column>) {
    && info != []
    && (forall n :: n in EXPECTED_NAMES - NOT_ADDED ==> n in NameSet(info))
    && !NeedsRebuildCreatedAt(info) && !NeedsRebuildPlainswareType(info)
  }

  /** The loop adds nothing when nothing is missing. */
  lemma {:induction false} AddMissingNothing(m: Migration, existing: set<string>, i: nat, rejected: set<string>)
    requires i <= |CANONICAL|
    requires forall n :: n in EXPECTED_NAMES - NOT_ADDED ==> n in existing
    ensures AddMissing(m, existing, i, rejected) == m
    decreases |CANONICAL| - i
  {
    if i < |CANONICAL| {
      assert CANONICAL[i] in CANONICAL;
      AddMissingNothing(m, existing, i + 1, rejected);
    }
  }

  /** On a settled table the migration renames nothing, rebuilds nothing and
      adds nothing. */
  lemma MigrateSettled(info: seq<Column>, renameWorks: bool, rejected: set<string>)
    requires Settled(info)
    ensures Migrate(info, renameWorks, rejected) == Migration(info, 0)
  {
    LegacyTargetsExpected();
    var m := Migration(info, 0);
    assert "plainsware_project" in NameSet(info) && "plainsware_number" in NameSet(info);
    assert TryRename(m, NameSet(info), "plainsware_proj", "plainsware_project", renameWorks) == m;
    assert TryRename(m, NameSet(info), "plainsware_num", "plainsware_number", renameWorks) == m;
    assert RebuildChecks(m) == m;
    AddMissingNothing(m, NameSet(info), 0, rejected);
  }

  /** The first `i` expected columns the loop may add are all present. */
  predicate AddedUpTo(info: seq<Column>, i: nat)
    requires i <= |CANONICAL|
  {
    forall j :: 0 <= j < i && CANONICAL[j].name !in NOT_ADDED ==> CANONICAL[j].name in NameSet(info)
  }

  lemma AddedUpToStep(info: seq<Column>, next: seq<Column>, i: nat)
    requires i < |CANONICAL| && AddedUpTo(info, i) && NameSet(info) <= NameSet(next)
    requires CANONICAL[i].name in NOT_ADDED || CANONICAL[i].name in NameSet(next)
    ensures AddedUpTo(next, i + 1)
  {
  }

  lemma AddedAll(info: seq<Column>)
    requires AddedUpTo(info, |CANONICAL|)
    ensures forall n :: n in EXPECTED_NAMES - NOT_ADDED ==> n in NameSet(info)
  {
    forall n | n in EXPECTED_NAMES - NOT_ADDED ensures n in NameSet(info) {
      var c :| c in CANONICAL && c.name == n;
      var j :| 0 <= j < |CANONICAL| && CANONICAL[j] == c;
    }
  }

  lemma CanonicalSettled()
    ensures Settled(CANONICAL)
  {
    CanonicalNeedsNoRebuild();
  }

  /** What the loop leaves: every column it was to add is there and the
      rebuild tests still pass. */
  lemma {:induction false} AddMissingResult(m: Migration, existing: set<string>, i: nat, rejected: set<string>)
    requires i <= |CANONICAL|
    requires existing <= NameSet(m.info) && m.info != []
    requires !NeedsRebuildCreatedAt(m.info) && !NeedsRebuildPlainswareType(m.info)
    requires AddedUpTo(m.info, i)
    ensures Settled(AddMissing(m, existing, i, rejected).info)
    decreases |CANONICAL| - i
  {
    if i == |CANONICAL| {
      AddedAll(m.info);
    } else {
      var col := CANONICAL[i];
      if col.name !in existing && col.name !in NOT_ADDED {
        if col.name in rejected {
          assert AddMissing(m, existing, i, rejected).info == CANONICAL;
          CanonicalSettled();
        } else {
          var next := m.info + [col];
          assert AddMissing(m, existing, i, rejected) == AddMissing(m.(info := next), existing, i + 1, rejected);
          AppendedColumn(m.info, col);
          AddedUpToStep(m.info, next, i);
          AddMissingResult(m.(info := next), existing, i + 1, rejected);
        }
      } else {
        assert AddMissing(m, existing, i, rejected) == AddMissing(m, existing, i + 1, rejected);
        AddedUpToStep(m.info, m.info, i);
        AddMissingResult(m, existing, i + 1, rejected);
      }
    }
  }

  /** Appending an expected column keeps the rebuild tests passing and adds its
      name. */
  lemma AppendedColumn(info: seq<Column>, col: Column)
    requires col in CANONICAL
    requires !NeedsRebuildCreatedAt(info) && !NeedsRebuildPlainswareType(info)
    ensures !NeedsRebuildCreatedAt(info + [col]) && !NeedsRebuildPlainswareType(info + [col])
    ensures NameSet(info + [col]) == NameSet(info) + {col.name}
  {
    FindAppend(info, col, "created_at");
    FindAppend(info, col, "plainsware_number");
    CanonicalCreatedAtFine();
    CanonicalPlainswareTypeFine();
    assert forall d :: d in info + [col] <==> d in info || d == col;
  }

  /** Running the migration a second time changes nothing and rebuilds nothing,
      whatever the database answers. */
  lemma MigrateIdempotent(info0: seq<Column>, renameWorks: bool, rejected: set<string>,
                          renameWorks2: bool, rejected2: set<string>)
    ensures Migrate(Migrate(info0, renameWorks, rejected).info, renameWorks2, rejected2)
            == Migration(Migrate(info0, renameWorks, rejected).info, 0)
  {
    MigrateSettled(Migrate(info0, renameWorks, rejected).info, renameWorks2, rejected2);
  }

  /** A missing table is created as declared, with nothing further to do. */
  lemma MigrateCreates(renameWorks: bool, rejected: set<string>)
    ensures Migrate([], renameWorks, rejected) == Migration(CANONICAL, 0)
  {
    CanonicalNeedsNoRebuild();
    MigrateSettled(CANONICAL, renameWorks, rejected);
  }

  /** The loop only ever adds expected columns. */
  lemma {:induction false} AddMissingAddsExpected(m: Migration, existing: set<string>, i: nat, rejected: set<string>, n: string)
    requires i <= |CANONICAL| && n !in EXPECTED_NAMES && n !in NameSet(m.info)
    ensures n !in NameSet(AddMissing(m, existing, i, rejected).info)
    decreases |CANONICAL| - i
  {
    if i < |CANONICAL| {
      var col := CANONICAL[i];
      assert col in CANONICAL;
      if col.name !in existing && col.name !in NOT_ADDED && col.name !in rejected {
        assert forall d :: d in m.info + [col] <==> d in m.info || d == col;
        AddMissingAddsExpected(m.(info := m.info + [col]), existing, i + 1, rejected, n);
      } else if col.name !in existing && col.name !in NOT_ADDED {
      } else {
        AddMissingAddsExpected(m, existing, i + 1, rejected, n);
      }
    }
  }

  /** A rename attempt never brings in a column other than its new name and the
      expected ones. */
  lemma TryRenameKeepsOut(m: Migration, existing: set<string>, from: string, to: string, renameWorks: bool, n: string)
    requires n !in NameSet(m.info) && n !in EXPECTED_NAMES && n != to
    ensures n !in NameSet(TryRename(m, existing, from, to, renameWorks).info)
  {
  }

  /** A rename attempt leaves no column under the old name, provided its new name
      was free when the columns were read. */
  lemma TryRenameRetires(m: Migration, existing: set<string>, from: string, to: string, renameWorks: bool)
    requires from != to && from !in EXPECTED_NAMES
    requires from in existing ==> to !in existing
    requires from !in existing ==> from !in NameSet(m.info)
    ensures from !in NameSet(TryRename(m, existing, from, to, renameWorks).info)
  {
  }

  /** A legacy column whose new name is not yet taken does not survive the
      migration: it is renamed, or the table is rebuilt without it. */
  lemma MigrateRetiresLegacy(info0: seq<Column>, renameWorks: bool, rejected: set<string>, from: string, to: string)
    requires Legacy(from) == Some(to) && to !in NameSet(info0)
    ensures from !in NameSet(Migrate(info0, renameWorks, rejected).info)
  {
    LegacyNotExpected();
    LegacyTargetsExpected();
    var m0 := Migration(if info0 == [] then CANONICAL else info0, 0);
    var existing := NameSet(m0.info);
    var m1 := TryRename(m0, existing, "plainsware_proj", "plainsware_project", renameWorks);
    var m2 := TryRename(m1, existing, "plainsware_num", "plainsware_number", renameWorks);
    var m3 := RebuildChecks(m2);
    if from == "plainsware_proj" {
      TryRenameRetires(m0, existing, from, to, renameWorks);
      TryRenameKeepsOut(m1, existing, "plainsware_num", "plainsware_number", renameWorks, from);
    } else {
      if from !in existing {
        TryRenameKeepsOut(m0, existing, "plainsware_proj", "plainsware_project", renameWorks, from);
      }
      TryRenameRetires(m1, existing, from, to, renameWorks);
    }
    assert from !in NameSet(m3.info);
    AddMissingAddsExpected(m3, NameSet(m3.info), 0, rejected, from);
  }

  /** Where `RENAME COLUMN` is not available, each legacy column the program
      tries to rename costs a rebuild, the second one included: it is decided on
      the column set read before the first rebuild. */
  lemma RenamesUnsupportedRebuildTwice(info0: seq<Column>, rejected: set<string>)
    requires "plainsware_proj" in NameSet(info0) && "plainsware_project" !in NameSet(info0)
    requires "plainsware_num" in NameSet(info0) && "plainsware_number" !in NameSet(info0)
    ensures Migrate(info0, false, rejected).rebuilds >= 2
  {
  }
}
