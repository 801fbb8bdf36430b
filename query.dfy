/** `fetch_df` (app.py:356-388): the WHERE clause built from the filter widgets,
    SQLite's evaluation of that clause over the rows, and the ORDER BY. */
module Query {
  import opened Wrappers
  import opened Text
  import opened Helpers
  import opened Store
  import opened Order

  /** The filter widgets' values; `None` is a key the dictionary does not hold. */
  datatype Filters = Filters(
    pillar: Option<string>,
    status: Option<string>,
    owner: Option<string>,
    priority: Option<string>,
    plainsware: Option<string>,
    search: Option<string>)

  /** `filters.get(col) and filters[col] != ALL_LABEL`: a non-empty choice other
      than "All". */
  predicate Chosen(v: Option<string>) {
    v.Some? && v.value != [] && v.value != ALL_LABEL
  }

  /** The text columns an equality filter can name. */
  datatype TextColumn = PillarColumn | StatusColumn | OwnerColumn | PlainswareProjectColumn

  function ColumnValue(c: TextColumn, p: Project): Option<string> {
    match c
    case PillarColumn => Some(p.pillar)
    case StatusColumn => p.status
    case OwnerColumn => p.owner
    case PlainswareProjectColumn => p.plainswareProject
  }

  /** The filter value each equality column is compared with. */
  function FilterFor(f: Filters, c: TextColumn): Option<string> {
    match c
    case PillarColumn => f.pillar
    case StatusColumn => f.status
    case OwnerColumn => f.owner
    case PlainswareProjectColumn => f.plainsware
  }

  // ------------------------------------------------------------- SQL LIKE

  /** Whether `pat` is free of LIKE's wildcards `%` and `_`. */
  predicate NoWildcards(pat: string) {
    forall i :: 0 <= i < |pat| ==> pat[i] != '%' && pat[i] != '_'
  }

  /** SQLite's `t LIKE pat` without an ESCAPE clause: `%` matches any run of
      characters, `_` any one character, and letters match ignoring ASCII case. */
  predicate Like(t: string, pat: string): (r: bool)
    ensures NoWildcards(pat) ==> (r <==> Lower(t) == Lower(pat))
    decreases |pat|, 1, |t|
  {
    if pat == [] then t == []
    else if pat[0] == '%' then LikeAnywhere(t, pat[1..])
    else if pat[0] == '_' then t != [] && Like(t[1..], pat[1..])
    else
      assert NoWildcards(pat) ==> NoWildcards(pat[1..]) by {
        if NoWildcards(pat) { assert forall i :: 0 <= i < |pat[1..]| ==> pat[1..][i] == pat[i + 1]; }
      }
      if t != [] then LowerCons(t, pat); LowerChar(t[0]) == LowerChar(pat[0]) && Like(t[1..], pat[1..])
      else false
  }

  /** Two texts agree ignoring ASCII case exactly when their first characters and
      their rests do. */
  lemma LowerCons(t: string, u: string)
    requires t != [] && u != []
    ensures Lower(t) == Lower(u) <==> LowerChar(t[0]) == LowerChar(u[0]) && Lower(t[1..]) == Lower(u[1..])
  {
    if LowerChar(t[0]) == LowerChar(u[0]) && Lower(t[1..]) == Lower(u[1..]) {
      forall i | 0 <= i < |t| ensures Lower(t)[i] == Lower(u)[i] {
        if i > 0 { assert Lower(t[1..])[i - 1] == Lower(u[1..])[i - 1]; }
      }
    }
    if Lower(t) == Lower(u) {
      forall i | 0 <= i < |t| - 1 ensures Lower(t[1..])[i] == Lower(u[1..])[i] {
        assert Lower(t)[i + 1] == Lower(u)[i + 1];
      }
    }
  }

  /** `pat` matches some suffix of `t`: what a leading `%` asks for. */
  predicate LikeAnywhere(t: string, pat: string)
    decreases |pat| + 1, 0, |t|
  {
    Like(t, pat) || (t != [] && LikeAnywhere(t[1..], pat))
  }

  lemma {:induction false} LikeAnywhereAt(t: string, pat: string)
    ensures LikeAnywhere(t, pat) <==> exists i :: 0 <= i <= |t| && Like(t[i..], pat)
    decreases |t|
  {
    assert t[0..] == t;
    if t != [] {
      LikeAnywhereAt(t[1..], pat);
      if LikeAnywhere(t[1..], pat) {
        var i :| 0 <= i <= |t[1..]| && Like(t[1..][i..], pat);
        assert t[1..][i..] == t[i + 1..];
      }
      if exists i :: 0 <= i <= |t| && Like(t[i..], pat) {
        var i :| 0 <= i <= |t| && Like(t[i..], pat);
        if i > 0 {
          assert t[1..][i - 1..] == t[i..];
        }
      }
    }
  }

  lemma {:induction false} TrailingPercentMatchesAll(t: string)
    ensures Like(t, "%")
    decreases |t|
  {
    assert "%"[1..] == [];
    if t != [] {
      TrailingPercentMatchesAll(t[1..]);
      assert LikeAnywhere(t[1..], []);
    }
  }

  /** `x` is a prefix of `u` when ASCII case is ignored. */
  predicate PrefixIgnoringCase(x: string, u: string) {
    |x| <= |u| && forall i :: 0 <= i < |x| ==> LowerChar(u[i]) == LowerChar(x[i])
  }

  /** Without wildcards, `x%` matches exactly the texts that start with `x`. */
  lemma {:induction false} LikePrefix(u: string, x: string)
    requires NoWildcards(x)
    ensures Like(u, x + "%") <==> PrefixIgnoringCase(x, u)
    decreases |x|
  {
    if x == [] {
      assert x + "%" == "%";
      TrailingPercentMatchesAll(u);
    } else {
      var pat := x + "%";
      assert pat[0] == x[0] && pat[1..] == x[1..] + "%";
      LikePrefix(if u == [] then [] else u[1..], x[1..]);
      if u != [] {
        assert PrefixIgnoringCase(x, u) <==>
               LowerChar(u[0]) == LowerChar(x[0]) && PrefixIgnoringCase(x[1..], u[1..]) by {
          if LowerChar(u[0]) == LowerChar(x[0]) && PrefixIgnoringCase(x[1..], u[1..]) {
            forall i | 0 <= i < |x| ensures LowerChar(u[i]) == LowerChar(x[i]) {
              if i > 0 { assert u[1..][i - 1] == u[i] && x[1..][i - 1] == x[i]; }
            }
          }
        }
      }
    }
  }

  lemma LowerCharIdempotent(c: char)
    ensures LowerChar(LowerChar(c)) == LowerChar(c)
  {
  }

  /** The search pattern `f"%{s.lower()}%"`. */
  function SearchPattern(s: string): string {
    "%" + Lower(s) + "%"
  }

  /** Without wildcards in the search text, LIKE against the search pattern is
      the substring test "the lower-cased search text occurs in the lower-cased
      column". */
  lemma SearchIsSubstring(t: string, s: string)
    requires NoWildcards(s)
    ensures Like(Lower(t), SearchPattern(s)) <==> IsSubstring(Lower(s), Lower(t))
  {
    var x, u := Lower(s), Lower(t);
    assert NoWildcards(x);
    assert SearchPattern(s)[1..] == x + "%";
    LikeAnywhereAt(u, x + "%");
    SubstringAt(x, u);
    forall i | 0 <= i <= |u| ensures Like(u[i..], x + "%") <==> IsPrefix(x, u[i..]) {
      LikePrefix(u[i..], x);
      if PrefixIgnoringCase(x, u[i..]) {
        assert u[i..][..|x|] == x by {
          forall k | 0 <= k < |x| ensures u[i..][k] == x[k] {
            LowerCharIdempotent(t[i + k]);
            LowerCharIdempotent(s[k]);
          }
        }
      }
      if IsPrefix(x, u[i..]) {
        forall k | 0 <= k < |x| ensures LowerChar(u[i..][k]) == LowerChar(x[k]) {
          assert u[i..][k] == u[i..][..|x|][k];
        }
      }
    }
  }

  // ---------------------------------------------------- WHERE clause and args

  /** One conjunct of the WHERE clause, as `fetch_df` writes it. */
  datatype Condition =
    | Equals(column: TextColumn)    // "{col} = ?"
    | PriorityEquals                // "priority = ?"
    | NameOrDescriptionLike         // "(LOWER(name) LIKE ? OR LOWER(description) LIKE ?)"

  /** A bound parameter. */
  datatype Arg = TextArg(s: string) | IntArg(i: int)

  /** The number of `?` placeholders in a condition. */
  function Arity(c: Condition): nat {
    if c.NameOrDescriptionLike? then 2 else 1
  }

  function Placeholders(w: seq<Condition>): nat {
    if w == [] then 0 else Placeholders(w[..|w| - 1]) + Arity(w[|w| - 1])
  }

  /** SQLite's value of one condition for a row, with its own parameters. A
      comparison with NULL is never true, and neither is LIKE on NULL. */
  predicate Holds(c: Condition, args: seq<Arg>, p: Project)
    requires |args| == Arity(c)
  {
    match c
    case Equals(col) => args[0].TextArg? && ColumnValue(col, p) == Some(args[0].s)
    case PriorityEquals => args[0].IntArg? && p.priority == Some(args[0].i)
    case NameOrDescriptionLike =>
      && args[0].TextArg? && args[1].TextArg?
      && (Like(Lower(p.name), args[0].s)
          || (p.description.Some? && Like(Lower(p.description.value), args[1].s)))
  }

  /** The conjunction of the conditions, each reading its placeholders from
      `args` in order. */
  predicate WhereHolds(w: seq<Condition>, args: seq<Arg>, p: Project)
    requires Placeholders(w) == |args|
  {
    if w == [] then true
    else
      var k := |args| - Arity(w[|w| - 1]);
      WhereHolds(w[..|w| - 1], args[..k], p) && Holds(w[|w| - 1], args[k..], p)
  }

  /** Appending a condition and its parameters adds one conjunct. */
  lemma WhereAppend(w: seq<Condition>, args: seq<Arg>, c: Condition, more: seq<Arg>, p: Project)
    requires Placeholders(w) == |args| && |more| == Arity(c)
    ensures Placeholders(w + [c]) == |args + more|
    ensures WhereHolds(w + [c], args + more, p) <==> WhereHolds(w, args, p) && Holds(c, more, p)
  {
    assert (w + [c])[..|w + [c]| - 1] == w;
    assert (args + more)[..|args|] == args;
    assert (args + more)[|args|..] == more;
  }

  // ------------------------------------------------- the filter as a predicate

  /** The equality filter on one column holds (or is not in force). */
  predicate EqualityHolds(f: Filters, c: TextColumn, p: Project) {
    Chosen(FilterFor(f, c)) ==> ColumnValue(c, p) == FilterFor(f, c)
  }

  /** The search text matches the name or the description. */
  predicate SearchHits(s: string, p: Project) {
    Like(Lower(p.name), SearchPattern(s))
    || (p.description.Some? && Like(Lower(p.description.value), SearchPattern(s)))
  }

  /** Every chosen equality filter holds. */
  predicate EqualitiesHold(f: Filters, p: Project) {
    && EqualityHolds(f, PillarColumn, p)
    && EqualityHolds(f, StatusColumn, p)
    && EqualityHolds(f, OwnerColumn, p)
    && EqualityHolds(f, PlainswareProjectColumn, p)
  }

  /** What `fetch_df`'s filters ask of a row: every chosen equality, the
      priority when it reads as an integer, and the search when it is given. */
  predicate Matches(filters: Option<Filters>, p: Project): (r: bool)
    ensures filters.None? ==> r
    ensures r && filters.Some? && Chosen(filters.value.pillar) ==> filters.value.pillar == Some(p.pillar)
    ensures r && filters.Some? && Chosen(filters.value.status) ==> p.status == filters.value.status
    ensures r && filters.Some? && Chosen(filters.value.owner) ==> p.owner == filters.value.owner
    ensures r && filters.Some? && Chosen(filters.value.plainsware) ==> p.plainswareProject == filters.value.plainsware
    ensures r && filters.Some? && Chosen(filters.value.priority) && ParseInt(filters.value.priority.value).Some? ==>
              p.priority == ParseInt(filters.value.priority.value)
    ensures r && filters.Some? && filters.value.search.Some? && filters.value.search.value != [] &&
            NoWildcards(filters.value.search.value) ==>
              || IsSubstring(Lower(filters.value.search.value), Lower(p.name))
              || (p.description.Some? && IsSubstring(Lower(filters.value.search.value), Lower(p.description.value)))
  {
    var ok := filters.Some? ==>
      var f := filters.value;
      && EqualitiesHold(f, p)
      && PriorityHolds(f, p)
      && (f.search.Some? && f.search.value != [] ==> SearchHits(f.search.value, p));
    if filters.Some? && filters.value.search.Some? && NoWildcards(filters.value.search.value) then
      SearchHitsIsSubstring(filters.value.search.value, p);
      ok
    else ok
  }

  /** The priority filter holds, or is dropped because it is not an integer. */
  predicate PriorityHolds(f: Filters, p: Project) {
    Chosen(f.priority) && ParseInt(f.priority.value).Some? ==> p.priority == ParseInt(f.priority.value)
  }

  /** A search without `%` or `_` is the substring test on name or description. */
  lemma SearchHitsIsSubstring(s: string, p: Project)
    requires NoWildcards(s)
    ensures SearchHits(s, p) <==>
              IsSubstring(Lower(s), Lower(p.name))
              || (p.description.Some? && IsSubstring(Lower(s), Lower(p.description.value)))
  {
    SearchIsSubstring(p.name, s);
    if p.description.Some? {
      SearchIsSubstring(p.description.value, s);
    }
  }

  /** The columns `fetch_df`'s loop visits, in its order. */
  const EQUALITY_COLUMNS := [PillarColumn, StatusColumn, OwnerColumn]

  /** The equality filters of the first `n` columns of the loop hold. */
  predicate FirstEqualitiesHold(f: Filters, n: nat, p: Project)
    requires n <= |EQUALITY_COLUMNS|
  {
    forall j :: 0 <= j < n ==> EqualityHolds(f, EQUALITY_COLUMNS[j], p)
  }

  /** The `where` and `args` lists `fetch_df` builds: the parameters line up with
      the placeholders, and the clause holds of a row exactly when the row
      matches the filters. */
  method BuildWhere(filters: Option<Filters>) returns (where: seq<Condition>, args: seq<Arg>)
    ensures Placeholders(where) == |args|
    ensures forall p :: WhereHolds(where, args, p) <==> Matches(filters, p)
  {
    if filters.None? {
      return [], [];
    }
    var f := filters.value;
    where, args := EqualityConditions(f);
    if Chosen(f.plainsware) {
      AppendEverywhere(where, args, Equals(PlainswareProjectColumn), [TextArg(f.plainsware.value)]);
      where := where + [Equals(PlainswareProjectColumn)];
      args := args + [TextArg(f.plainsware.value)];
    }
    assert Denotes(where, args, f, 1);
    where, args := PriorityCondition(f, where, args);
    where, args := SearchCondition(f, where, args);
  }

  /** The priority step: `priority = ?` with `int(...)` of the choice, or nothing
      when `int` raises. */
  method PriorityCondition(f: Filters, where0: seq<Condition>, args0: seq<Arg>) returns (where: seq<Condition>, args: seq<Arg>)
    requires Denotes(where0, args0, f, 1)
    ensures Denotes(where, args, f, 2)
  {
    where, args := where0, args0;
    if Chosen(f.priority) {
      where := where + [PriorityEquals];
      var parsed := ParseInt(f.priority.value);
      if parsed.Some? {
        AppendEverywhere(where0, args, PriorityEquals, [IntArg(parsed.value)]);
        args := args + [IntArg(parsed.value)];
      } else {
        // the condition was appended, `int` raised, and `where.pop()` takes it back
        assert where[..|where| - 1] == where0;
        where := where[..|where| - 1];
      }
    }
  }

  /** The search step: name or description LIKE the lower-cased text in `%`s. */
  method SearchCondition(f: Filters, where0: seq<Condition>, args0: seq<Arg>) returns (where: seq<Condition>, args: seq<Arg>)
    requires Denotes(where0, args0, f, 2)
    ensures Denotes(where, args, f, 3)
  {
    where, args := where0, args0;
    if f.search.Some? && f.search.value != [] {
      var s := SearchPattern(f.search.value);
      AppendEverywhere(where, args, NameOrDescriptionLike, [TextArg(s), TextArg(s)]);
      where := where + [NameOrDescriptionLike];
      args := args + [TextArg(s), TextArg(s)];
    }
  }

  /** The filters of the first `stage` steps after the equality loop: the
      equalities, then the priority, then the search. */
  predicate UpTo(f: Filters, stage: nat, p: Project) {
    && EqualitiesHold(f, p)
    && (stage >= 2 ==> PriorityHolds(f, p))
    && (stage >= 3 && f.search.Some? && f.search.value != [] ==> SearchHits(f.search.value, p))
  }

  /** `where` and `args` line up and say exactly what the first `stage` steps ask. */
  ghost predicate Denotes(where: seq<Condition>, args: seq<Arg>, f: Filters, stage: nat) {
    Placeholders(where) == |args| && forall p :: WhereHolds(where, args, p) <==> UpTo(f, stage, p)
  }

  /** The loop over pillar, status and owner: one `col = ?` per chosen column. */
  method EqualityConditions(f: Filters) returns (where: seq<Condition>, args: seq<Arg>)
    ensures Placeholders(where) == |args|
    ensures forall p :: WhereHolds(where, args, p) <==>
      EqualityHolds(f, PillarColumn, p) && EqualityHolds(f, StatusColumn, p) && EqualityHolds(f, OwnerColumn, p)
  {
    where, args := [], [];
    for n := 0 to |EQUALITY_COLUMNS|
      invariant Placeholders(where) == |args|
      invariant forall p :: WhereHolds(where, args, p) <==> FirstEqualitiesHold(f, n, p)
    {
      var col := EQUALITY_COLUMNS[n];
      if Chosen(FilterFor(f, col)) {
        AppendEverywhere(where, args, Equals(col), [TextArg(FilterFor(f, col).value)]);
        where := where + [Equals(col)];
        args := args + [TextArg(FilterFor(f, col).value)];
      }
    }
    forall p ensures FirstEqualitiesHold(f, 3, p) <==>
      EqualityHolds(f, PillarColumn, p) && EqualityHolds(f, StatusColumn, p) && EqualityHolds(f, OwnerColumn, p) {
      AllEqualityColumns(f, p);
    }
  }

  lemma AllEqualityColumns(f: Filters, p: Project)
    ensures FirstEqualitiesHold(f, 3, p) <==>
      EqualityHolds(f, PillarColumn, p) && EqualityHolds(f, StatusColumn, p) && EqualityHolds(f, OwnerColumn, p)
  {
    assert EQUALITY_COLUMNS[0] == PillarColumn;
    assert EQUALITY_COLUMNS[1] == StatusColumn;
    assert EQUALITY_COLUMNS[2] == OwnerColumn;
  }

  /** `WhereAppend` for every row at once. */
  lemma AppendEverywhere(w: seq<Condition>, args: seq<Arg>, c: Condition, more: seq<Arg>)
    requires Placeholders(w) == |args| && |more| == Arity(c)
    ensures Placeholders(w + [c]) == |args + more|
    ensures forall p :: WhereHolds(w + [c], args + more, p) <==> WhereHolds(w, args, p) && Holds(c, more, p)
  {
    forall p ensures WhereHolds(w + [c], args + more, p) <==> WhereHolds(w, args, p) && Holds(c, more, p) {
      WhereAppend(w, args, c, more, p);
    }
    assert (w + [c])[..|w + [c]| - 1] == w;
  }

  // ------------------------------------------------------- rows and their order

  /** The rows of `table` that match, in table order. */
  function Select(table: seq<Project>, filters: Option<Filters>): (r: seq<Project>)
    ensures forall p :: p in r <==> p in table && Matches(filters, p)
    ensures multiset(r) <= multiset(table)
  {
    if table == [] then []
    else
      assert table == [table[0]] + table[1..];
      (if Matches(filters, table[0]) then [table[0]] else []) + Select(table[1..], filters)
  }

  /** SQLite's scan with the WHERE clause: the rows for which the clause holds,
      in table order. */
  function SqlSelect(table: seq<Project>, where: seq<Condition>, args: seq<Arg>): (r: seq<Project>)
    requires Placeholders(where) == |args|
    ensures forall p :: p in r ==> p in table && WhereHolds(where, args, p)
  {
    if table == [] then []
    else (if WhereHolds(where, args, table[0]) then [table[0]] else []) + SqlSelect(table[1..], where, args)
  }

  /** A clause that says what the filters say selects what the filters select. */
  lemma {:induction false} SqlSelectIsSelect(table: seq<Project>, where: seq<Condition>, args: seq<Arg>, filters: Option<Filters>)
    requires Placeholders(where) == |args|
    requires forall p :: WhereHolds(where, args, p) <==> Matches(filters, p)
    ensures SqlSelect(table, where, args) == Select(table, filters)
  {
    if table != [] {
      SqlSelectIsSelect(table[1..], where, args, filters);
    }
  }

  /** `ORDER BY COALESCE(start_date,''), COALESCE(due_date,''), COALESCE(created_at,'')` */
  function FetchKey(p: Project): Key {
    [TextPart(p.startDate.GetOr("")), TextPart(p.dueDate.GetOr("")), TextPart(p.createdAt)]
  }

  /** What `fetch_df` returns: the matching rows ordered by `FetchKey`, rows with
      equal keys in table order. */
  function FetchRows(table: seq<Project>, filters: Option<Filters>): (r: seq<Project>)
    ensures SortedBy(r, FetchKey)
    ensures multiset(r) == multiset(Select(table, filters))
    ensures forall p :: p in r <==> p in table && Matches(filters, p)
  {
    var r := Sort(Select(table, filters), FetchKey);
    assert forall p :: p in r <==> p in multiset(Select(table, filters));
    r
  }

  /** `fetch_df(filters)`: build the clause, let the database evaluate and order it. */
  method FetchDf(table: seq<Project>, filters: Option<Filters>) returns (rows: seq<Project>)
    ensures rows == FetchRows(table, filters)
  {
    var where, args := BuildWhere(filters);
    rows := Sort(SqlSelect(table, where, args), FetchKey);
    SqlSelectIsSelect(table, where, args, filters);
  }

  /** Selecting from rows that all match keeps them all. */
  lemma {:induction false} SelectAllMatching(table: seq<Project>, filters: Option<Filters>)
    requires forall p :: p in table ==> Matches(filters, p)
    ensures Select(table, filters) == table
  {
    if table != [] {
      assert table[0] in table;
      SelectAllMatching(table[1..], filters);
      assert table == [table[0]] + table[1..];
    }
  }

  /** Filtering twice with the same filters is filtering once. */
  lemma SelectIdempotent(table: seq<Project>, filters: Option<Filters>)
    ensures Select(Select(table, filters), filters) == Select(table, filters)
  {
    SelectAllMatching(Select(table, filters), filters);
  }

  /** No filters, no condition: every row is selected. */
  lemma SelectNoFilters(table: seq<Project>)
    ensures Select(table, None) == table
  {
    SelectAllMatching(table, None);
  }

  /** Applying the same filters to what `fetch_df` returned changes nothing. */
  lemma FetchIdempotent(table: seq<Project>, filters: Option<Filters>)
    ensures FetchRows(FetchRows(table, filters), filters) == FetchRows(table, filters)
  {
    var rows := FetchRows(table, filters);
    SelectAllMatching(rows, filters);
    SortSorted(rows, FetchKey);
  }

  /** Rows without a start date (NULL or empty) come before every row that has one. */
  lemma UndatedFirst(table: seq<Project>, filters: Option<Filters>, i: int, j: int)
    requires 0 <= i < j < |FetchRows(table, filters)|
    requires FetchRows(table, filters)[j].startDate.GetOr("") == ""
    ensures FetchRows(table, filters)[i].startDate.GetOr("") == ""
  {
    var rows := FetchRows(table, filters);
    var a, b := FetchKey(rows[i]), FetchKey(rows[j]);
    assert !KeyLess(b, a);
    if rows[i].startDate.GetOr("") != "" {
      assert PartLess(b[0], a[0]);
      assert false;
    }
  }

  // ------------------------------------------------------------ distinct_values

  /** The number of spaces `s` starts with. */
  function LeadingBlanks(s: string): (k: nat)
    ensures k <= |s| && (forall i :: 0 <= i < k ==> s[i] == ' ')
    ensures k == |s| || s[k] != ' '
  {
    if s != [] && s[0] == ' ' then
      var k := 1 + LeadingBlanks(s[1..]);
      assert forall i :: 1 <= i < k ==> s[i] == s[1..][i - 1];
      k
    else 0
  }

  /** Where the run of spaces `s` ends with begins. */
  function TrailingBlankStart(s: string): (k: nat)
    ensures k <= |s| && (forall i :: k <= i < |s| ==> s[i] == ' ')
    ensures k == 0 || s[k - 1] != ' '
  {
    if s != [] && s[|s| - 1] == ' ' then TrailingBlankStart(s[..|s| - 1]) else |s|
  }

  /** SQLite's `TRIM(x)`, which removes spaces only, unlike Python's `strip()`. */
  function SqlTrim(s: string): (r: string)
    ensures r == [] <==> forall i :: 0 <= i < |s| ==> s[i] == ' '
    ensures r == [] || (r[0] != ' ' && r[|r| - 1] != ' ')
  {
    var l := s[LeadingBlanks(s)..];
    var r := l[..TrailingBlankStart(l)];
    assert l != [] ==> l[0] == s[LeadingBlanks(s)];
    assert r != [] ==> r[0] == l[0];
    r
  }

  /** The strings of `s` are in strictly ascending order: sorted and distinct. */
  predicate StrictlyAscending(s: seq<string>) {
    forall i, j :: 0 <= i < j < |s| ==> Less(s[i], s[j])
  }

  /** A string that sorts below the head of an ascending list may go in front. */
  lemma AscendingCons(x: string, s: seq<string>)
    requires StrictlyAscending(s)
    requires forall v :: v in s ==> Less(x, v)
    ensures StrictlyAscending([x] + s)
  {
    forall i, j | 0 <= i < j < |[x] + s| ensures Less(([x] + s)[i], ([x] + s)[j]) {
      assert ([x] + s)[j] == s[j - 1];
      assert s[j - 1] in s;
      if i > 0 { assert ([x] + s)[i] == s[i - 1]; }
    }
  }

  /** Adding `x` to an ascending list of distinct strings. */
  function InsertDistinct(x: string, s: seq<string>): (r: seq<string>)
    requires StrictlyAscending(s)
    ensures StrictlyAscending(r)
    ensures forall v :: v in r <==> v == x || v in s
  {
    if s == [] then [x]
    else if x == s[0] then s
    else if Less(x, s[0]) then
      forall v | v in s ensures Less(x, v) {
        var j :| 0 <= j < |s| && s[j] == v;
        if j > 0 { LessTransitive(x, s[0], v); }
      }
      AscendingCons(x, s);
      [x] + s
    else
      var rest := InsertDistinct(x, s[1..]);
      forall v | v in rest ensures Less(s[0], v) {
        if v == x {
          LessTotal(x, s[0]);
        } else {
          var j :| 0 <= j < |s[1..]| && s[1..][j] == v;
          assert s[j + 1] == v;
        }
      }
      AscendingCons(s[0], rest);
      assert s == [s[0]] + s[1..];
      [s[0]] + rest
  }

  /** `distinct_values(col)`: the distinct non-NULL values of a column whose
      `TRIM` is not empty, in ascending order. */
  function DistinctValues(table: seq<Project>, col: TextColumn): (r: seq<string>)
    ensures StrictlyAscending(r)
    ensures forall v :: v in r <==> exists p :: p in table && ColumnValue(col, p) == Some(v) && SqlTrim(v) != []
  {
    if table == [] then []
    else
      var rest := DistinctValues(table[1..], col);
      assert forall p :: p in table <==> p == table[0] || p in table[1..];
      var v := ColumnValue(col, table[0]);
      if v.Some? && SqlTrim(v.value) != [] then InsertDistinct(v.value, rest) else rest
  }
}
