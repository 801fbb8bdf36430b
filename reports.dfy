/** The reports drawn from the rows `fetch_df` returned (app.py:748-867): the
    year filter and its options, the priority options, the KPI cards, the
    pillar-by-state counts, the top rows per pillar and the roadmap rows. */
module Reports {
  import opened Wrappers
  import opened Text
  import opened Helpers
  import opened Store
  import opened Order

  /** The label blank pillars are shown under. */
  const UNSPECIFIED := "(Unspecified)"

  /** "Completed" or "Ongoing", from the free-text status. */
  function State(p: Project): string {
    StatusToState(p.status)
  }

  // ------------------------------------------------------------------- years

  /** The "Year Type" radio: start year or due year. */
  datatype YearMode = StartYear | DueYear

  /** `a` is not later than `b` on the calendar. */
  predicate DateAtMost(a: Date, b: Date) {
    a.year < b.year || (a.year == b.year && (a.month < b.month || (a.month == b.month && a.day <= b.day)))
  }

  /** The first and last days whose midnight a pandas nanosecond `Timestamp` can hold:
      `Timestamp.min` is 1677-09-21 00:12:43.145224193 and `Timestamp.max` is
      2262-04-11 23:47:16.854775807. */
  const FIRST_TIMESTAMP_DAY := Date(1677, 9, 22)
  const LAST_TIMESTAMP_DAY := Date(2262, 4, 11)

  predicate InTimestampRange(d: Date) {
    DateAtMost(FIRST_TIMESTAMP_DAY, d) && DateAtMost(d, LAST_TIMESTAMP_DAY)
  }

  /** `pd.to_datetime(date, errors="coerce")` on a stored date: the date when the text
      reads as a date and that date fits a `Timestamp`, `NaT` (`None`) otherwise. */
  function ToDatetime(s: Option<string>): (r: Option<Date>)
    ensures r.Some? ==> ValidDate(r.value) && InTimestampRange(r.value)
    ensures r.Some? ==> r == TryDate(s)
    ensures TryDate(s).Some? && InTimestampRange(TryDate(s).value) ==> r.Some?
  {
    var d := TryDate(s);
    if d.Some? && InTimestampRange(d.value) then d else None
  }

  /** `pd.to_datetime(date, errors="coerce").dt.year`: the year of the start or
      due date, missing when the text is not a date or the date lies outside the
      `Timestamp` range. */
  function Year(p: Project, mode: YearMode): (r: Option<int>)
    ensures r.Some? ==> 1677 <= r.value <= 2262
    ensures r.Some? <==> ToDatetime(if mode == StartYear then p.startDate else p.dueDate).Some?
    ensures r.Some? ==> r.value == ToDatetime(if mode == StartYear then p.startDate else p.dueDate).value.year
  {
    var d := ToDatetime(if mode == StartYear then p.startDate else p.dueDate);
    if d.Some? then Some(d.value.year) else None
  }

  /** The year of a row whose date text reads back as `d`. */
  lemma YearOfReadDate(p: Project, mode: YearMode, d: Option<Date>)
    requires TryDate(if mode == StartYear then p.startDate else p.dueDate) == d
    ensures Year(p, mode) == (if d.Some? && InTimestampRange(d.value) then Some(d.value.year) else None)
  {
  }

  /** A row the editor wrote shows the years of the dates entered on the form,
      and no year where no date was entered or the date does not fit a `Timestamp`. */
  lemma YearOfWrittenRow(id: int, f: Form, ts: string)
    requires DatesExist(f)
    ensures Year(NewRow(id, f, ts), StartYear)
      == (if f.startDate.Some? && InTimestampRange(f.startDate.value) then Some(f.startDate.value.year) else None)
    ensures Year(NewRow(id, f, ts), DueYear)
      == (if f.dueDate.Some? && InTimestampRange(f.dueDate.value) then Some(f.dueDate.value.year) else None)
  {
    var p := NewRow(id, f, ts);
    YearOfReadDate(p, StartYear, f.startDate);
    YearOfReadDate(p, DueYear, f.dueDate);
  }

  /** `data[data[year_col] == int(year_f)]`; `None` is the "All" choice, which
      keeps every row. Rows keep their order. */
  function YearFilter(view: seq<Project>, mode: YearMode, year: Option<int>): (r: seq<Project>)
    ensures forall p :: p in r <==> p in view && (year.None? || Year(p, mode) == year)
    ensures multiset(r) <= multiset(view)
  {
    if view == [] then []
    else
      assert view == [view[0]] + view[1..];
      var keep := year.None? || Year(view[0], mode) == year;
      (if keep then [view[0]] else []) + YearFilter(view[1..], mode, year)
  }

  /** "All" leaves the rows as they are. */
  lemma {:induction false} YearFilterAll(view: seq<Project>, mode: YearMode)
    ensures YearFilter(view, mode, None) == view
  {
    if view != [] {
      YearFilterAll(view[1..], mode);
      assert view == [view[0]] + view[1..];
    }
  }

  /** The year filter keeps the order `fetch_df` put the rows in. */
  lemma {:induction false} YearFilterSorted(view: seq<Project>, mode: YearMode, year: Option<int>, key: Project -> Key)
    requires SortedBy(view, key)
    ensures SortedBy(YearFilter(view, mode, year), key)
  {
    if view != [] {
      var rest := YearFilter(view[1..], mode, year);
      assert SortedBy(view[1..], key) by {
        forall i, j | 0 <= i < j < |view[1..]| ensures !KeyLess(key(view[1..][j]), key(view[1..][i])) {
          assert view[1..][j] == view[j + 1] && view[1..][i] == view[i + 1];
        }
      }
      YearFilterSorted(view[1..], mode, year, key);
      forall z | z in rest ensures !KeyLess(key(z), key(view[0])) {
        var j :| 0 <= j < |view[1..]| && view[1..][j] == z;
        assert view[j + 1] == z;
      }
      ConsSorted(view[0], rest, key);
    }
  }

  /** Strictly ascending integers: sorted and distinct. */
  predicate IntsAscending(s: seq<int>) {
    forall i, j :: 0 <= i < j < |s| ==> s[i] < s[j]
  }

  /** Adding `x` to an ascending list of distinct integers. */
  function InsertInt(x: int, s: seq<int>): (r: seq<int>)
    requires IntsAscending(s)
    ensures IntsAscending(r)
    ensures forall v :: v in r <==> v == x || v in s
  {
    if s == [] then [x]
    else if x == s[0] then s
    else if x < s[0] then
      IntsCons(x, s);
      [x] + s
    else
      var rest := InsertInt(x, s[1..]);
      forall v | v in rest ensures s[0] < v {
        if v != x {
          var j :| 0 <= j < |s[1..]| && s[1..][j] == v;
          assert s[j + 1] == v;
        }
      }
      IntsCons(s[0], rest);
      assert s == [s[0]] + s[1..];
      [s[0]] + rest
  }

  /** An integer below every element of an ascending list may go in front. */
  lemma IntsCons(x: int, s: seq<int>)
    requires IntsAscending(s)
    requires s != [] ==> x < s[0]
    ensures IntsAscending([x] + s)
  {
    forall i, j | 0 <= i < j < |[x] + s| ensures ([x] + s)[i] < ([x] + s)[j] {
      assert ([x] + s)[j] == s[j - 1];
      if i > 0 { assert ([x] + s)[i] == s[i - 1]; }
      else if j > 1 { assert s[0] < s[j - 1]; }
    }
  }

  /** `sorted(data[year_col].dropna().astype(int).unique())`: the years shown in
      the year selector. */
  function YearOptions(view: seq<Project>, mode: YearMode): (r: seq<int>)
    ensures IntsAscending(r)
    ensures forall y :: y in r <==> exists p :: p in view && Year(p, mode) == Some(y)
  {
    if view == [] then []
    else
      var rest := YearOptions(view[1..], mode);
      assert forall p :: p in view <==> p == view[0] || p in view[1..];
      var y := Year(view[0], mode);
      if y.Some? then InsertInt(y.value, rest) else rest
  }

  /** Choosing any offered year keeps at least one row. */
  lemma OfferedYearKeepsRows(view: seq<Project>, mode: YearMode, y: int)
    requires y in YearOptions(view, mode)
    ensures YearFilter(view, mode, Some(y)) != []
  {
    var p :| p in view && Year(p, mode) == Some(y);
    assert p in YearFilter(view, mode, Some(y));
  }

  // ---------------------------------------------------------------- priority

  /** The priorities the selector offers: `int(x)` for each distinct stored
      priority whose text is all digits, that is, the non-negative ones, in
      ascending order. */
  function PriorityValues(table: seq<Project>): (r: seq<int>)
    ensures IntsAscending(r)
    ensures forall v :: v in r <==> v >= 0 && exists p :: p in table && p.priority == Some(v)
  {
    if table == [] then []
    else
      var rest := PriorityValues(table[1..]);
      assert forall p :: p in table <==> p == table[0] || p in table[1..];
      var v := table[0].priority;
      if v.Some? && v.value >= 0 then InsertInt(v.value, rest) else rest
  }

  /** `[str(x) for x in values]` */
  function Printed(values: seq<int>): (r: seq<string>)
    ensures |r| == |values| && forall i :: 0 <= i < |values| ==> r[i] == IntToString(values[i])
  {
    seq(|values|, i requires 0 <= i < |values| => IntToString(values[i]))
  }

  /** `[ALL_LABEL] + [str(x) for x in priority_vals]` */
  function PriorityOptions(table: seq<Project>): (r: seq<string>)
    ensures |r| == |PriorityValues(table)| + 1 && r[0] == ALL_LABEL
  {
    [ALL_LABEL] + Printed(PriorityValues(table))
  }

  /** Every priority offered reads back through `int` as a priority some row
      has, so choosing it never makes `fetch_df` drop the priority filter. */
  lemma PriorityOptionReadsBack(table: seq<Project>, i: int)
    requires 1 <= i < |PriorityOptions(table)|
    ensures PriorityOptions(table)[i] != ALL_LABEL
    ensures ParseInt(PriorityOptions(table)[i]) == Some(PriorityValues(table)[i - 1])
    ensures exists p :: p in table && p.priority == ParseInt(PriorityOptions(table)[i])
  {
    var values := PriorityValues(table);
    var v := values[i - 1];
    var o := PriorityOptions(table)[i];
    assert o == IntToString(v) by {
      assert o == Printed(values)[i - 1];
    }
    assert v in values;
    PrintedPriority(v);
    var p :| p in table && p.priority == Some(v);
    assert p.priority == ParseInt(o);
  }

  /** `str(v)` of a non-negative integer is not "All" and reads back as `v`. */
  lemma PrintedPriority(v: int)
    requires v >= 0
    ensures IntToString(v) != ALL_LABEL
    ensures ParseInt(IntToString(v)) == Some(v)
  {
    IntStringRoundTrip(v);
    assert IsDigit(NatToString(v)[0]);
  }

  // -------------------------------------------------------------- KPI cards

  /** `(data["status"].apply(status_to_state) == "Completed").sum()` */
  function CompletedCount(view: seq<Project>): nat {
    if view == [] then 0
    else (if State(view[0]) == COMPLETED then 1 else 0) + CompletedCount(view[1..])
  }

  /** `(data["status"].apply(status_to_state) != "Completed").sum()` */
  function OngoingCount(view: seq<Project>): nat {
    if view == [] then 0
    else (if State(view[0]) != COMPLETED then 1 else 0) + OngoingCount(view[1..])
  }

  /** The pillars `nunique` counts: the non-blank ones. */
  function PillarSet(view: seq<Project>): set<string> {
    set p | p in view && p.pillar != "" :: p.pillar
  }

  /** The four metrics. */
  datatype Kpi = Kpi(total: nat, completed: nat, ongoing: nat, pillars: nat)

  /** The KPI cards: the counts of completed and ongoing rows add up to the
      total, and there are no more distinct pillars than rows. */
  function Kpis(view: seq<Project>): (k: Kpi)
    ensures k.total == |view|
    ensures k.completed + k.ongoing == k.total
    ensures k.pillars <= k.total
    ensures k.completed == CompletedCount(view) && k.pillars == |PillarSet(view)|
  {
    CompletedPlusOngoing(view);
    PillarsAtMostRows(view);
    Kpi(|view|, CompletedCount(view), OngoingCount(view), |PillarSet(view)|)
  }

  /** Every row is either completed or ongoing. */
  lemma {:induction false} CompletedPlusOngoing(view: seq<Project>)
    ensures CompletedCount(view) + OngoingCount(view) == |view|
  {
    if view != [] {
      CompletedPlusOngoing(view[1..]);
    }
  }

  lemma {:induction false} PillarsAtMostRows(view: seq<Project>)
    ensures |PillarSet(view)| <= |view|
  {
    if view != [] {
      var pre := view[..|view| - 1];
      PillarsAtMostRows(pre);
      var x := view[|view| - 1];
      assert PillarSet(view) <= PillarSet(pre) + {x.pillar} by {
        forall q | q in PillarSet(view) ensures q in PillarSet(pre) + {x.pillar} {
          var p :| p in view && p.pillar != "" && p.pillar == q;
          var j :| 0 <= j < |view| && view[j] == p;
          if j < |view| - 1 { assert pre[j] == p; }
        }
      }
      SubsetSize(PillarSet(view), PillarSet(pre) + {x.pillar});
    }
  }

  lemma SubsetSize(a: set<string>, b: set<string>)
    requires a <= b
    ensures |a| <= |b|
  {
    assert b == a + (b - a);
  }

  // ------------------------------------------------- pillar-by-state counts

  /** One bar of the chart: a pillar, a state and the number of rows. */
  datatype Group = Group(pillar: string, state: string, count: nat)

  /** The order `groupby(["pillar", "state"])` lists its groups in. */
  function GroupKey(g: Group): Key {
    [TextPart(g.pillar), TextPart(g.state)]
  }

  predicate KeysAscending(gs: seq<Group>) {
    forall i, j :: 0 <= i < j < |gs| ==> KeyLess(GroupKey(gs[i]), GroupKey(gs[j]))
  }

  /** The number of rows of `view` with that pillar and state. */
  function CountOf(view: seq<Project>, pillar: string, state: string): nat {
    if view == [] then 0
    else (if view[0].pillar == pillar && State(view[0]) == state then 1 else 0) + CountOf(view[1..], pillar, state)
  }

  /** The count the groups give a pillar and state (zero when none does). */
  function Lookup(gs: seq<Group>, pillar: string, state: string): nat {
    if gs == [] then 0
    else (if gs[0].pillar == pillar && gs[0].state == state then gs[0].count else 0) + Lookup(gs[1..], pillar, state)
  }

  /** The sum of the counts. */
  function Total(gs: seq<Group>): nat {
    if gs == [] then 0 else gs[0].count + Total(gs[1..])
  }

  predicate AllPositive(gs: seq<Group>) {
    forall i :: 0 <= i < |gs| ==> gs[i].count > 0
  }

  /** A group whose key sorts below the head of ascending groups may go in front. */
  lemma GroupsCons(g: Group, gs: seq<Group>)
    requires KeysAscending(gs)
    requires forall h :: h in gs ==> KeyLess(GroupKey(g), GroupKey(h))
    ensures KeysAscending([g] + gs)
  {
    forall i, j | 0 <= i < j < |[g] + gs| ensures KeyLess(GroupKey(([g] + gs)[i]), GroupKey(([g] + gs)[j])) {
      assert ([g] + gs)[j] == gs[j - 1];
      assert gs[j - 1] in gs;
      if i > 0 { assert ([g] + gs)[i] == gs[i - 1]; }
    }
  }

  /** Count one more row under a pillar and state: the group with that key
      grows by one, or a new group of one goes in its place in key order. */
  function AddOne(gs: seq<Group>, pillar: string, state: string): (r: seq<Group>)
    ensures Total(r) == Total(gs) + 1
  {
    if gs == [] then [Group(pillar, state, 1)]
    else if gs[0].pillar == pillar && gs[0].state == state then [gs[0].(count := gs[0].count + 1)] + gs[1..]
    else if KeyLess(GroupKey(Group(pillar, state, 1)), GroupKey(gs[0])) then [Group(pillar, state, 1)] + gs
    else [gs[0]] + AddOne(gs[1..], pillar, state)
  }

  /** The keys of the groups. */
  function Keys(gs: seq<Group>): set<Key> {
    set g | g in gs :: GroupKey(g)
  }

  lemma AscendingTail(gs: seq<Group>)
    requires KeysAscending(gs) && gs != []
    ensures KeysAscending(gs[1..])
  {
    forall i, j | 0 <= i < j < |gs[1..]| ensures KeyLess(GroupKey(gs[1..][i]), GroupKey(gs[1..][j])) {
      assert gs[1..][i] == gs[i + 1] && gs[1..][j] == gs[j + 1];
    }
  }

  /** Adding a row keeps the keys strictly ascending and adds its key. */
  lemma {:induction false} AddOneAscending(gs: seq<Group>, pillar: string, state: string)
    requires KeysAscending(gs)
    ensures KeysAscending(AddOne(gs, pillar, state))
    ensures Keys(AddOne(gs, pillar, state)) == Keys(gs) + {GroupKey(Group(pillar, state, 1))}
  {
    var g := Group(pillar, state, 1);
    if gs == [] {
      assert Keys([g]) == {GroupKey(g)} by { KeysCons(g, []); }
    } else if gs[0].pillar == pillar && gs[0].state == state {
      BumpAscending(gs);
      assert gs[0] in gs && GroupKey(gs[0]) == GroupKey(g);
    } else if KeyLess(GroupKey(g), GroupKey(gs[0])) {
      FrontAscending(g, gs);
    } else {
      AscendingTail(gs);
      AddOneAscending(gs[1..], pillar, state);
      LaterAscending(g, gs, AddOne(gs[1..], pillar, state));
    }
  }

  /** Adding to the first group's count changes no key. */
  lemma BumpAscending(gs: seq<Group>)
    requires KeysAscending(gs) && gs != []
    ensures KeysAscending([gs[0].(count := gs[0].count + 1)] + gs[1..])
    ensures Keys([gs[0].(count := gs[0].count + 1)] + gs[1..]) == Keys(gs)
  {
    var h := gs[0].(count := gs[0].count + 1);
    var r := [h] + gs[1..];
    forall i, j | 0 <= i < j < |r| ensures KeyLess(GroupKey(r[i]), GroupKey(r[j])) {
      assert GroupKey(r[i]) == GroupKey(gs[i]) && GroupKey(r[j]) == GroupKey(gs[j]);
    }
    KeysCons(h, gs[1..]);
    KeysCons(gs[0], gs[1..]);
    assert gs == [gs[0]] + gs[1..];
  }

  /** A new group below the first goes in front. */
  lemma FrontAscending(g: Group, gs: seq<Group>)
    requires KeysAscending(gs) && gs != [] && KeyLess(GroupKey(g), GroupKey(gs[0]))
    ensures KeysAscending([g] + gs)
    ensures Keys([g] + gs) == Keys(gs) + {GroupKey(g)}
  {
    forall h | h in gs ensures KeyLess(GroupKey(g), GroupKey(h)) {
      var j :| 0 <= j < |gs| && gs[j] == h;
      if j > 0 { KeyLessTransitive(GroupKey(g), GroupKey(gs[0]), GroupKey(h)); }
    }
    GroupsCons(g, gs);
    KeysCons(g, gs);
  }

  /** A new group above the first goes into the rest. */
  lemma LaterAscending(g: Group, gs: seq<Group>, rest: seq<Group>)
    requires KeysAscending(gs) && gs != []
    requires GroupKey(g) != GroupKey(gs[0]) && !KeyLess(GroupKey(g), GroupKey(gs[0]))
    requires KeysAscending(rest) && Keys(rest) == Keys(gs[1..]) + {GroupKey(g)}
    ensures KeysAscending([gs[0]] + rest)
    ensures Keys([gs[0]] + rest) == Keys(gs) + {GroupKey(g)}
  {
    forall h | h in rest ensures KeyLess(GroupKey(gs[0]), GroupKey(h)) {
      assert GroupKey(h) in Keys(rest);
      if GroupKey(h) == GroupKey(g) {
        KeyLessTotal(GroupKey(g), GroupKey(gs[0]));
      } else {
        var k :| k in gs[1..] && GroupKey(k) == GroupKey(h);
        var j :| 0 <= j < |gs[1..]| && gs[1..][j] == k;
        assert gs[j + 1] == k;
      }
    }
    GroupsCons(gs[0], rest);
    KeysCons(gs[0], rest);
    KeysCons(gs[0], gs[1..]);
    assert gs == [gs[0]] + gs[1..];
  }

  lemma KeysCons(g: Group, gs: seq<Group>)
    ensures Keys([g] + gs) == {GroupKey(g)} + Keys(gs)
  {
    assert forall h :: h in [g] + gs <==> h == g || h in gs;
  }

  /** Adding a row adds one to its own pillar and state and to nothing else. */
  lemma {:induction false} AddOneLookup(gs: seq<Group>, pillar: string, state: string)
    ensures forall a, b :: Lookup(AddOne(gs, pillar, state), a, b) ==
                             Lookup(gs, a, b) + (if a == pillar && b == state then 1 else 0)
  {
    var r := AddOne(gs, pillar, state);
    if gs == [] {
      assert r[1..] == [];
    } else if gs[0].pillar == pillar && gs[0].state == state {
      assert r[1..] == gs[1..];
    } else if KeyLess(GroupKey(Group(pillar, state, 1)), GroupKey(gs[0])) {
      assert r[1..] == gs;
    } else {
      AddOneLookup(gs[1..], pillar, state);
      assert r[1..] == AddOne(gs[1..], pillar, state);
    }
  }

  lemma {:induction false} AddOnePositive(gs: seq<Group>, pillar: string, state: string)
    requires AllPositive(gs)
    ensures AllPositive(AddOne(gs, pillar, state))
  {
    if gs != [] && !(gs[0].pillar == pillar && gs[0].state == state)
       && !KeyLess(GroupKey(Group(pillar, state, 1)), GroupKey(gs[0])) {
      assert AllPositive(gs[1..]) by {
        forall i | 0 <= i < |gs[1..]| ensures gs[1..][i].count > 0 {
          assert gs[1..][i] == gs[i + 1];
        }
      }
      AddOnePositive(gs[1..], pillar, state);
      var r := AddOne(gs, pillar, state);
      forall i | 0 <= i < |r| ensures r[i].count > 0 {
        if i > 0 { assert r[i] == AddOne(gs[1..], pillar, state)[i - 1]; }
      }
    }
  }

  /** A key the groups give a count to is the key of one of them. */
  function FoundAt(gs: seq<Group>, pillar: string, state: string): (j: nat)
    requires Lookup(gs, pillar, state) > 0
    ensures j < |gs| && gs[j].pillar == pillar && gs[j].state == state
  {
    if gs[0].pillar == pillar && gs[0].state == state then 0 else 1 + FoundAt(gs[1..], pillar, state)
  }

  /** `groupby(["pillar", "state"]).size()`: one group per pillar and state that
      occur together, in ascending key order, with the number of rows under it. */
  function Tally(view: seq<Project>): (r: seq<Group>)
    ensures KeysAscending(r) && AllPositive(r)
    ensures Total(r) == |view|
    ensures forall a, b :: Lookup(r, a, b) == CountOf(view, a, b)
  {
    if view == [] then []
    else
      var rest := Tally(view[1..]);
      AddOneAscending(rest, view[0].pillar, State(view[0]));
      AddOneLookup(rest, view[0].pillar, State(view[0]));
      AddOnePositive(rest, view[0].pillar, State(view[0]));
      AddOne(rest, view[0].pillar, State(view[0]))
  }

  /** A row with a pillar and state exists exactly when that pair is counted;
      so every group's state is "Completed" or "Ongoing". */
  lemma {:induction false} CountOfPositive(view: seq<Project>, pillar: string, state: string)
    ensures CountOf(view, pillar, state) > 0 <==> exists p :: p in view && p.pillar == pillar && State(p) == state
  {
    if view != [] {
      CountOfPositive(view[1..], pillar, state);
      assert forall p :: p in view <==> p == view[0] || p in view[1..];
    }
  }

  /** With keys strictly ascending, each group holds the whole count of its key. */
  lemma {:induction false} LookupOfMember(gs: seq<Group>, i: int)
    requires KeysAscending(gs) && 0 <= i < |gs|
    ensures Lookup(gs, gs[i].pillar, gs[i].state) == gs[i].count
  {
    if i == 0 {
      if Lookup(gs[1..], gs[0].pillar, gs[0].state) > 0 {
        var j := FoundAt(gs[1..], gs[0].pillar, gs[0].state);
        assert GroupKey(gs[j + 1]) == GroupKey(gs[0]);
        KeyLessIrreflexive(GroupKey(gs[0]));
      }
    } else {
      AscendingTail(gs);
      LookupOfMember(gs[1..], i - 1);
      assert GroupKey(gs[0]) != GroupKey(gs[i]) by {
        KeyLessIrreflexive(GroupKey(gs[0]));
      }
    }
  }

  /** Each bar shows exactly the number of rows with its pillar and state, and
      that state is one of the two `status_to_state` gives. */
  lemma TallyCounts(view: seq<Project>, i: int)
    requires 0 <= i < |Tally(view)|
    ensures Tally(view)[i].count == CountOf(view, Tally(view)[i].pillar, Tally(view)[i].state)
    ensures Tally(view)[i].state == COMPLETED || Tally(view)[i].state == ONGOING
  {
    var g := Tally(view)[i];
    LookupOfMember(Tally(view), i);
    CountOfPositive(view, g.pillar, g.state);
  }

  /** `pillar_summary["pillar"].replace("", "(Unspecified)")`, applied after
      grouping. */
  function RelabelGroups(gs: seq<Group>): (r: seq<Group>)
    ensures |r| == |gs| && Total(r) == Total(gs)
    ensures forall a, b :: Lookup(r, a, b) ==
                             if a == "" then 0
                             else if a == UNSPECIFIED then Lookup(gs, "", b) + Lookup(gs, UNSPECIFIED, b)
                             else Lookup(gs, a, b)
  {
    if gs == [] then []
    else
      var g := if gs[0].pillar == "" then gs[0].(pillar := UNSPECIFIED) else gs[0];
      var r := [g] + RelabelGroups(gs[1..]);
      assert r[1..] == RelabelGroups(gs[1..]);
      r
  }

  /** The chart data. */
  function PillarSummary(view: seq<Project>): (r: seq<Group>)
    ensures Total(r) == |view|
    ensures forall a, b :: Lookup(r, a, b) ==
                             if a == "" then 0
                             else if a == UNSPECIFIED then CountOf(view, "", b) + CountOf(view, UNSPECIFIED, b)
                             else CountOf(view, a, b)
  {
    RelabelGroups(Tally(view))
  }

  /** The completed bars add up to the "Completed" card. */
  lemma {:induction false} CompletedBars(view: seq<Project>)
    ensures CompletedIn(Tally(view)) == CompletedCount(view)
  {
    if view != [] {
      CompletedBars(view[1..]);
      CompletedAddOne(Tally(view[1..]), view[0].pillar, State(view[0]));
    }
  }

  /** The sum of the counts of the "Completed" groups. */
  function CompletedIn(gs: seq<Group>): nat {
    if gs == [] then 0 else (if gs[0].state == COMPLETED then gs[0].count else 0) + CompletedIn(gs[1..])
  }

  lemma {:induction false} CompletedAddOne(gs: seq<Group>, pillar: string, state: string)
    ensures CompletedIn(AddOne(gs, pillar, state)) == CompletedIn(gs) + (if state == COMPLETED then 1 else 0)
  {
    if gs != [] && !(gs[0].pillar == pillar && gs[0].state == state)
       && !KeyLess(GroupKey(Group(pillar, state, 1)), GroupKey(gs[0])) {
      CompletedAddOne(gs[1..], pillar, state);
      assert AddOne(gs, pillar, state)[1..] == AddOne(gs[1..], pillar, state);
    } else if gs != [] {
      assert AddOne(gs, pillar, state)[1..] == (if gs[0].pillar == pillar && gs[0].state == state then gs[1..] else gs);
    }
  }

  // ------------------------------------------------------- top N per pillar

  /** `data.replace({"pillar": {"": "(Unspecified)"}})` on one row. */
  function Relabel(p: Project): (r: Project)
    ensures r.pillar != "" && r.id == p.id && r.name == p.name && r.priority == p.priority
    ensures p.pillar != "" ==> r == p
  {
    if p.pillar == "" then p.(pillar := UNSPECIFIED) else p
  }

  function RelabelAll(view: seq<Project>): (r: seq<Project>)
    ensures |r| == |view| && forall i :: 0 <= i < |view| ==> r[i] == Relabel(view[i])
  {
    seq(|view|, i requires 0 <= i < |view| => Relabel(view[i]))
  }

  /** A missing priority sorts last (`na_position="last"`). */
  function PriorityPart(x: Option<int>): Part {
    if x.Some? then IntPart(x.value) else NullPart
  }

  /** `sort_values(["pillar", "priority", "name"])` */
  function TopKey(p: Project): Key {
    [TextPart(p.pillar), PriorityPart(p.priority), TextPart(p.name)]
  }

  /** The rows of one pillar, in order. */
  function Only(s: seq<Project>, pillar: string): (r: seq<Project>)
    ensures forall x :: x in r ==> x in s && x.pillar == pillar
  {
    if s == [] then []
    else Only(s[..|s| - 1], pillar) + (if s[|s| - 1].pillar == pillar then [s[|s| - 1]] else [])
  }

  /** `Only` keeps every row of the pillar, as often as it occurs, and no other. */
  lemma {:induction false} OnlyMultiset(s: seq<Project>, pillar: string)
    ensures forall x :: multiset(Only(s, pillar))[x] == if x.pillar == pillar then multiset(s)[x] else 0
  {
    if s != [] {
      var pre := s[..|s| - 1];
      OnlyMultiset(pre, pillar);
      assert s == pre + [s[|s| - 1]];
    }
  }

  /** The first `n` elements, or all of them when there are fewer. */
  function Take(s: seq<Project>, n: nat): (r: seq<Project>)
    ensures |r| <= n && |r| <= |s|
  {
    if |s| <= n then s else s[..n]
  }

  /** `groupby("pillar").head(n)`: each row whose pillar has fewer than `n` rows
      before it, in order. */
  function HeadPerGroup(s: seq<Project>, n: nat): (r: seq<Project>)
    ensures multiset(r) <= multiset(s)
  {
    if s == [] then []
    else
      var pre := s[..|s| - 1];
      var x := s[|s| - 1];
      assert s == pre + [x];
      HeadPerGroup(pre, n) + (if |Only(pre, x.pillar)| < n then [x] else [])
  }

  lemma OnlySnoc(s: seq<Project>, x: Project, pillar: string)
    ensures Only(s + [x], pillar) == Only(s, pillar) + (if x.pillar == pillar then [x] else [])
  {
    assert (s + [x])[..|s + [x]| - 1] == s;
  }

  /** Per pillar, `head(n)` keeps the first `n` rows of that pillar. */
  lemma {:induction false} HeadPerGroupOnly(s: seq<Project>, n: nat, pillar: string)
    ensures Only(HeadPerGroup(s, n), pillar) == Take(Only(s, pillar), n)
  {
    if s != [] {
      var pre := s[..|s| - 1];
      var x := s[|s| - 1];
      assert s == pre + [x];
      HeadPerGroupOnly(pre, n, pillar);
      OnlySnoc(pre, x, pillar);
      var h := HeadPerGroup(pre, n);
      var o := Only(pre, pillar);
      var kept := |Only(pre, x.pillar)| < n;
      assert HeadPerGroup(s, n) == if kept then h + [x] else h;
      assert Only(s, pillar) == if x.pillar == pillar then o + [x] else o;
      if kept {
        HeadPerGroupKeeps(h, x, o, n, pillar);
      } else if x.pillar == pillar {
        HeadPerGroupDrops(h, x, o, n, pillar);
      }
    }
  }

  /** The step of `HeadPerGroupOnly` where the pillar already has `n` rows. */
  lemma HeadPerGroupDrops(h: seq<Project>, x: Project, o: seq<Project>, n: nat, pillar: string)
    requires Only(h, pillar) == Take(o, n) && |o| >= n
    ensures Only(h, pillar) == Take(o + [x], n)
  {
    assert (o + [x])[..n] == o[..n];
  }

  /** The step of `HeadPerGroupOnly` where the last row is kept. */
  lemma HeadPerGroupKeeps(h: seq<Project>, x: Project, o: seq<Project>, n: nat, pillar: string)
    requires Only(h, pillar) == Take(o, n)
    requires x.pillar == pillar ==> |o| < n
    ensures Only(h + [x], pillar) == Take(if x.pillar == pillar then o + [x] else o, n)
  {
    OnlySnoc(h, x, pillar);
    assert Only(h, pillar) + [] == Only(h, pillar);
  }

  /** Filtering a sorted sequence to one pillar keeps it sorted. */
  lemma {:induction false} OnlySorted(s: seq<Project>, pillar: string, key: Project -> Key)
    requires SortedBy(s, key)
    ensures SortedBy(Only(s, pillar), key)
  {
    if s != [] {
      var pre := s[..|s| - 1];
      var x := s[|s| - 1];
      OnlySorted(pre, pillar, key);
      var o := Only(pre, pillar);
      if x.pillar == pillar {
        forall i, j | 0 <= i < j < |o + [x]| ensures !KeyLess(key((o + [x])[j]), key((o + [x])[i])) {
          if j == |o| {
            assert o[i] in pre;
            var k :| 0 <= k < |pre| && pre[k] == o[i];
            assert s[k] == o[i];
          } else {
            assert (o + [x])[i] == o[i] && (o + [x])[j] == o[j];
          }
        }
      }
    }
  }

  /** The Top N table. */
  function TopN(view: seq<Project>, n: nat): (r: seq<Project>)
    ensures multiset(r) <= multiset(RelabelAll(view))
    ensures forall p :: p in r ==> p.pillar != ""
  {
    var sorted := Sort(RelabelAll(view), TopKey);
    var r := HeadPerGroup(sorted, n);
    forall p | p in r ensures p.pillar != "" {
      assert p in multiset(RelabelAll(view));
    }
    r
  }

  /** For every pillar, the Top N table holds that pillar's first `n` rows in
      ascending (priority, name) order: at most `n` rows, each of them a row of
      that pillar, and no row of the pillar left out sorts before one kept. */
  lemma TopNPerPillar(view: seq<Project>, n: nat, pillar: string)
    ensures |Only(TopN(view, n), pillar)| <= n
    ensures Only(TopN(view, n), pillar) == Take(Only(Sort(RelabelAll(view), TopKey), pillar), n)
    ensures SortedBy(Only(Sort(RelabelAll(view), TopKey), pillar), TopKey)
    ensures forall x :: multiset(Only(Sort(RelabelAll(view), TopKey), pillar))[x] ==
                          if x.pillar == pillar then multiset(RelabelAll(view))[x] else 0
  {
    var sorted := Sort(RelabelAll(view), TopKey);
    HeadPerGroupOnly(sorted, n, pillar);
    OnlySorted(sorted, pillar, TopKey);
    OnlyMultiset(sorted, pillar);
  }

  // ----------------------------------------------------------------- roadmap

  /** `gantt.dropna(subset=["Start", "Finish"])`: the rows whose start and due
      dates both convert with `pd.to_datetime`. */
  function Roadmap(view: seq<Project>): (r: seq<Project>)
    ensures forall p :: p in r <==> p in view && ToDatetime(p.startDate).Some? && ToDatetime(p.dueDate).Some?
    ensures multiset(r) <= multiset(view)
  {
    if view == [] then []
    else
      assert view == [view[0]] + view[1..];
      var keep := ToDatetime(view[0].startDate).Some? && ToDatetime(view[0].dueDate).Some?;
      (if keep then [view[0]] else []) + Roadmap(view[1..])
  }

  /** A row the editor saved with both dates is drawn on the roadmap exactly when
      both dates fit a `Timestamp`. */
  lemma WrittenRowOnRoadmap(view: seq<Project>, id: int, f: Form, ts: string)
    requires DatesExist(f) && f.startDate.Some? && f.dueDate.Some?
    requires NewRow(id, f, ts) in view
    ensures NewRow(id, f, ts) in Roadmap(view)
      <==> InTimestampRange(f.startDate.value) && InTimestampRange(f.dueDate.value)
  {
  }
}
