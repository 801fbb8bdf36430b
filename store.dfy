/** The `projects` table and the editor's Save New, Update and Delete actions
    (app.py:597-734), with the table held as a map from id to row and an id
    counter standing in for SQLite's AUTOINCREMENT sequence. */
module Store {
  import opened Wrappers
  import opened Text
  import opened Helpers

  /** A row of `projects`. `name`, `pillar`, `created_at` and `updated_at` are
      NOT NULL columns; every other column may hold NULL (`None`). */
  datatype Project = Project(
    id: int,
    name: string,
    pillar: string,
    priority: Option<int>,
    description: Option<string>,
    owner: Option<string>,
    status: Option<string>,
    startDate: Option<string>,
    dueDate: Option<string>,
    plainswareProject: Option<string>,
    plainswareNumber: Option<string>,
    createdAt: string,
    updatedAt: string)

  /** What the editor form hands to the CRUD actions. `None` stands for a widget
      that has no value. */
  datatype Form = Form(
    name: Option<string>,
    pillar: Option<string>,
    priority: PyValue,
    description: Option<string>,
    owner: Option<string>,
    status: Option<string>,
    startDate: Option<Date>,
    dueDate: Option<Date>,
    plainswareProject: string,
    plainswareNumber: Option<string>)

  /** A date picker only ever holds a date that exists. */
  predicate DatesExist(f: Form) {
    && (f.startDate.Some? ==> ValidDate(f.startDate.value))
    && (f.dueDate.Some? ==> ValidDate(f.dueDate.value))
  }

  datatype FormError = NameRequired | PillarRequired | OwnerRequired | Plainsware(e: PlainswareError)

  /** `validate_plainsware` is only consulted when the flag is exactly "Yes". */
  function PlainswareCheck(f: Form): Result<Option<string>, PlainswareError> {
    if f.plainswareProject == "Yes" then ValidatePlainsware(f.plainswareProject, f.plainswareNumber)
    else Success(None)
  }

  /** The "required" errors, in the order the source appends them. */
  function RequiredErrors(nameBlank: bool, pillarBlank: bool, ownerBlank: bool): (r: seq<FormError>)
    ensures NameRequired in r <==> nameBlank
    ensures PillarRequired in r <==> pillarBlank
    ensures OwnerRequired in r <==> ownerBlank
    ensures forall e :: Plainsware(e) !in r
  {
    (if nameBlank then [NameRequired] else [])
    + (if pillarBlank then [PillarRequired] else [])
    + (if ownerBlank then [OwnerRequired] else [])
  }

  /** The error list Save New and Update collect, in the order they collect it. */
  function Errors(f: Form): (r: seq<FormError>)
    ensures NameRequired in r <==> Clean(f.name) == []
    ensures PillarRequired in r <==> Clean(f.pillar) == []
    ensures OwnerRequired in r <==> Clean(f.owner) == []
    ensures (exists e :: Plainsware(e) in r) <==> PlainswareCheck(f).Failure?
    ensures PlainswareCheck(f).Failure? ==> Plainsware(PlainswareCheck(f).error) in r
  {
    var required := RequiredErrors(Clean(f.name) == [], Clean(f.pillar) == [], Clean(f.owner) == []);
    required + (match PlainswareCheck(f) case Failure(e) => [Plainsware(e)] case Success(_) => [])
  }

  /** The form passes every check. */
  predicate Acceptable(f: Form) {
    && Clean(f.name) != [] && Clean(f.pillar) != [] && Clean(f.owner) != []
    && (f.plainswareProject == "Yes" ==> ValidatePlainsware("Yes", f.plainswareNumber).Success?)
  }

  /** The error list is empty exactly when the form passes every check. */
  lemma NoErrorsIffAcceptable(f: Form)
    ensures Errors(f) == [] <==> Acceptable(f)
  {
  }

  /** `pw_number_db`: the normalised number when the flag is "Yes" and the
      number passed, `None` otherwise. */
  function NumberToStore(f: Form): (r: Option<string>)
    ensures r.Some? ==> f.plainswareProject == "Yes" && IsJjmd(r.value)
    ensures f.plainswareProject == "Yes" && PlainswareCheck(f).Success? ==> r.Some?
  {
    YesSaysYes();
    match PlainswareCheck(f)
    case Success(v) => v
    case Failure(_) => None
  }

  // ---------------------------------------------------------- the rows written

  /** The row Save New inserts, with `created_at = updated_at = ts`. */
  function NewRow(id: int, f: Form, ts: string): (r: Project)
    requires DatesExist(f)
    ensures r.id == id && r.createdAt == ts && r.updatedAt == ts
    ensures r.name == Clean(f.name) && r.pillar == Clean(f.pillar) && r.owner == Some(Clean(f.owner))
    ensures r.status == Some(Clean(f.status)) && r.description == Some(Clean(f.description))
    ensures r.priority == Some(SafeInt(f.priority, 5))
    ensures TryDate(r.startDate) == f.startDate && TryDate(r.dueDate) == f.dueDate
    ensures r.plainswareProject == Some(f.plainswareProject) && r.plainswareNumber == NumberToStore(f)
  {
    OptionalIsoRoundTrip(f.startDate);
    OptionalIsoRoundTrip(f.dueDate);
    Project(id, Clean(f.name), Clean(f.pillar), Some(SafeInt(f.priority, 5)), Some(Clean(f.description)),
            Some(Clean(f.owner)), Some(Clean(f.status)), Some(ToIso(f.startDate)), Some(ToIso(f.dueDate)),
            Some(f.plainswareProject), NumberToStore(f), ts, ts)
  }

  /** The row Update leaves behind: the ten edited columns and `updated_at` are
      overwritten, `id` and `created_at` are kept. */
  function UpdatedRow(p: Project, f: Form, ts: string): (r: Project)
    requires DatesExist(f)
    ensures r.id == p.id && r.createdAt == p.createdAt && r.updatedAt == ts
    ensures r.(createdAt := ts) == NewRow(p.id, f, ts)
  {
    var n := NewRow(p.id, f, ts);
    n.(createdAt := p.createdAt)
  }

  /** What every row the editor writes satisfies: name, pillar and owner are
      filled in, and a Planisware number is stored exactly when the flag is
      "Yes", always in the normalised `JJMD-` form. */
  predicate Conforms(p: Project) {
    && p.name != [] && p.pillar != [] && p.owner.Some? && p.owner.value != []
    && (p.plainswareNumber.Some? <==> p.plainswareProject == Some("Yes"))
    && (p.plainswareNumber.Some? ==> IsJjmd(p.plainswareNumber.value))
  }

  /** A row written from a form without errors conforms and is stamped as
      Save New stamps it. */
  lemma NewRowConforms(id: int, f: Form, ts: string)
    requires DatesExist(f) && Errors(f) == []
    ensures Conforms(NewRow(id, f, ts))
    ensures NewRow(id, f, ts).id == id && NewRow(id, f, ts).createdAt == ts == NewRow(id, f, ts).updatedAt
  {
  }

  /** An update keeps the row's identity and creation time, stamps `updated_at`,
      and leaves a conforming row. */
  lemma UpdatedRowConforms(p: Project, f: Form, ts: string)
    requires DatesExist(f) && Errors(f) == []
    ensures Conforms(UpdatedRow(p, f, ts))
    ensures UpdatedRow(p, f, ts).id == p.id && UpdatedRow(p, f, ts).createdAt == p.createdAt
    ensures UpdatedRow(p, f, ts).updatedAt == ts
  {
    NewRowConforms(p.id, f, ts);
  }

  /** The outcome of pressing Update or Delete. */
  datatype Outcome = NothingLoaded | Refused(errors: seq<FormError>) | Written

  // ---------------------------------------------------------------- the table

  class ProjectStore {
    /** The rows, by id. */
    var rows: map<int, Project>
    /** The id the next insert receives; every id ever handed out is below it. */
    var nextId: int

    ghost predicate Valid()
      reads this
    {
      && nextId >= 1
      && forall id :: id in rows ==> 1 <= id < nextId && rows[id].id == id
    }

    /** Every row satisfies what the editor's checks guarantee. */
    ghost predicate AllConform()
      reads this
    {
      forall id :: id in rows ==> Conforms(rows[id])
    }

    /** A new, empty table. */
    constructor ()
      ensures Valid() && AllConform()
      ensures rows == map[] && nextId == 1
    {
      rows := map[];
      nextId := 1;
    }

    /** The project the editor loads for the selected id (app.py:465-473):
        the row with that id, or `None` when there is none. */
    function Load(selected: Option<int>): (r: Option<Project>)
      reads this
      ensures r.Some? <==> selected.Some? && selected.value in rows
      ensures r.Some? ==> r.value == rows[selected.value]
    {
      if selected.Some? && selected.value in rows then Some(rows[selected.value]) else None
    }

    /** The rows with an id below `n`, in ascending id order. */
    function RowsBelow(n: int): (r: seq<Project>)
      reads this
      requires Valid()
      ensures forall i :: 0 <= i < |r| ==> r[i].id in rows && rows[r[i].id] == r[i] && r[i].id < n
      ensures forall i, j :: 0 <= i < j < |r| ==> r[i].id < r[j].id
      ensures forall id :: id in rows && id < n ==> rows[id] in r
      decreases n
    {
      if n <= 1 then []
      else RowsBelow(n - 1) + (if n - 1 in rows then [rows[n - 1]] else [])
    }

    /** `fetch_all_projects`: every row, ordered by id. */
    function AllRows(): (r: seq<Project>)
      reads this
      requires Valid()
      ensures forall p :: p in r <==> p in rows.Values
      ensures forall i, j :: 0 <= i < j < |r| ==> r[i].id < r[j].id
    {
      var r := RowsBelow(nextId);
      assert forall p :: p in rows.Values ==> p in r by {
        forall p | p in rows.Values ensures p in r {
          var id :| id in rows && rows[id] == p;
        }
      }
      r
    }

    /** Save New: with no errors, insert one row under a fresh id; with errors,
        change nothing. */
    method SaveNew(f: Form, ts: string) returns (errors: seq<FormError>)
      requires Valid() && DatesExist(f)
      modifies this
      ensures Valid()
      ensures errors == Errors(f)
      ensures errors != [] ==> rows == old(rows) && nextId == old(nextId)
      ensures errors == [] ==>
                && old(nextId) !in old(rows)
                && rows == old(rows)[old(nextId) := NewRow(old(nextId), f, ts)]
                && nextId == old(nextId) + 1
      ensures old(AllConform()) ==> AllConform()
    {
      errors := Errors(f);
      if errors == [] {
        NewRowConforms(nextId, f, ts);
        Insert(NewRow(nextId, f, ts));
      }
    }

    /** The INSERT itself: the row takes the next id. */
    method Insert(row: Project)
      requires Valid() && row.id == nextId
      modifies this
      ensures Valid()
      ensures old(nextId) !in old(rows)
      ensures rows == old(rows)[old(nextId) := row] && nextId == old(nextId) + 1
      ensures old(AllConform()) && Conforms(row) ==> AllConform()
    {
      rows := rows[nextId := row];
      nextId := nextId + 1;
    }

    /** Update: with no project loaded, a warning and no change; with errors, no
        change; otherwise the loaded id's row is overwritten (an id that is no
        longer in the table matches no row). */
    method Update(loaded: Option<int>, f: Form, ts: string) returns (outcome: Outcome)
      requires Valid() && DatesExist(f)
      modifies this
      ensures Valid() && nextId == old(nextId)
      ensures loaded.None? ==> outcome == NothingLoaded && rows == old(rows)
      ensures loaded.Some? && Errors(f) != [] ==> outcome == Refused(Errors(f)) && rows == old(rows)
      ensures loaded.Some? && Errors(f) == [] ==>
                && outcome == Written
                && rows == (if loaded.value in old(rows)
                            then old(rows)[loaded.value := UpdatedRow(old(rows)[loaded.value], f, ts)]
                            else old(rows))
      ensures old(AllConform()) ==> AllConform()
    {
      if loaded.None? {
        return NothingLoaded;
      }
      var errors := Errors(f);
      if errors != [] {
        return Refused(errors);
      }
      var id := loaded.value;
      if id in rows {
        UpdatedRowConforms(rows[id], f, ts);
        Overwrite(UpdatedRow(rows[id], f, ts));
      }
      outcome := Written;
    }

    /** The UPDATE itself: the row with the same id is replaced. */
    method Overwrite(row: Project)
      requires Valid() && row.id in rows
      modifies this
      ensures Valid()
      ensures rows == old(rows)[row.id := row] && nextId == old(nextId)
      ensures old(AllConform()) && Conforms(row) ==> AllConform()
    {
      rows := rows[row.id := row];
    }

    /** Delete: remove the loaded id's row and nothing else; with no project
        loaded, change nothing. */
    method Delete(loaded: Option<int>) returns (outcome: Outcome)
      requires Valid()
      modifies this
      ensures Valid() && nextId == old(nextId)
      ensures loaded.None? ==> outcome == NothingLoaded && rows == old(rows)
      ensures loaded.Some? ==> outcome == Written && rows == old(rows) - {loaded.value}
      ensures old(AllConform()) ==> AllConform()
    {
      if loaded.None? {
        return NothingLoaded;
      }
      rows := rows - {loaded.value};
      outcome := Written;
    }
  }
}
