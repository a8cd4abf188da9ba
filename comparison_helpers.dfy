/**
 * The pure helpers of the environment comparison page: the table rows built from
 * the server's three name lists, the case-insensitive name filter, the names that
 * may be copied, the environment lookups and the exported report.
 */
module ComparisonHelpers {
  import opened Wrappers
  import opened Text

  /** An environment as the server lists it. Optional fields may be absent. */
  datatype Environment = Environment(id: string, name: Option<string>, color: Option<string>, keyVaultUrl: Option<string>)

  /** The server's summary object, copied through unchanged. */
  type Summary = map<string, int>

  /**
   * The server's answer to a comparison: names only in the first (source)
   * environment, names in both, names only in the second (target) one. Any of the
   * lists may be missing from the answer.
   */
  datatype Comparison = Comparison(
    onlyInEnv1: Option<seq<string>>,
    inBoth: Option<seq<string>>,
    onlyInEnv2: Option<seq<string>>,
    summary: Option<Summary>)

  datatype Status = OnlyInSource | InBoth | OnlyInTarget

  datatype Row = Row(name: string, status: Status, key: string)

  /** A missing name list reads as empty. */
  function OrEmpty(names: Option<seq<string>>): seq<string> {
    names.GetOr([])
  }

  function KeyPrefix(status: Status): string {
    match status
    case OnlyInSource => "source-"
    case InBoth => "both-"
    case OnlyInTarget => "target-"
  }

  function RowFor(name: string, status: Status): Row {
    Row(name, status, KeyPrefix(status) + name)
  }

  /** A row's key is its status prefix followed by its name. */
  predicate WellKeyed(row: Row) {
    row.key == KeyPrefix(row.status) + row.name
  }

  /** One row per name, all with the same status, in list order. */
  function Tagged(names: seq<string>, status: Status): (rows: seq<Row>)
    ensures |rows| == |names|
    ensures forall i :: 0 <= i < |names| ==> rows[i] == RowFor(names[i], status)
  {
    seq(|names|, i requires 0 <= i < |names| => RowFor(names[i], status))
  }

  /**
   * The unfiltered table: the source-only group, then the in-both group, then the
   * target-only group, each in the server's order.
   */
  function AllRows(c: Comparison): (rows: seq<Row>)
    ensures |rows| == |OrEmpty(c.onlyInEnv1)| + |OrEmpty(c.inBoth)| + |OrEmpty(c.onlyInEnv2)|
  {
    Tagged(OrEmpty(c.onlyInEnv1), OnlyInSource)
      + Tagged(OrEmpty(c.inBoth), InBoth)
      + Tagged(OrEmpty(c.onlyInEnv2), OnlyInTarget)
  }

  /**
   * The unfiltered table holds as many rows as the three lists together: first the
   * source-only names, then the in-both names, then the target-only names, each
   * group in the server's order and tagged with its status.
   */
  lemma AllRowsLayout(c: Comparison)
    ensures |AllRows(c)| == |OrEmpty(c.onlyInEnv1)| + |OrEmpty(c.inBoth)| + |OrEmpty(c.onlyInEnv2)|
    ensures AllRows(c)[..|OrEmpty(c.onlyInEnv1)|] == Tagged(OrEmpty(c.onlyInEnv1), OnlyInSource)
    ensures AllRows(c)[|OrEmpty(c.onlyInEnv1)|..|OrEmpty(c.onlyInEnv1)| + |OrEmpty(c.inBoth)|]
      == Tagged(OrEmpty(c.inBoth), InBoth)
    ensures AllRows(c)[|OrEmpty(c.onlyInEnv1)| + |OrEmpty(c.inBoth)|..] == Tagged(OrEmpty(c.onlyInEnv2), OnlyInTarget)
  {
    var t1, t2, t3 := Tagged(OrEmpty(c.onlyInEnv1), OnlyInSource), Tagged(OrEmpty(c.inBoth), InBoth),
      Tagged(OrEmpty(c.onlyInEnv2), OnlyInTarget);
    assert AllRows(c) == (t1 + t2) + t3;
    assert ((t1 + t2) + t3)[..|t1|] == t1;
    assert ((t1 + t2) + t3)[|t1|..|t1| + |t2|] == t2;
    assert ((t1 + t2) + t3)[|t1| + |t2|..] == t3;
  }

  /** The search filter: the lower-cased name contains the lower-cased term. */
  predicate NameMatches(name: string, term: string) {
    Includes(Lower(name), Lower(term))
  }

  /** `a` is an order-preserving subsequence of `b`. */
  predicate IsSubsequence<T(==)>(a: seq<T>, b: seq<T>)
    decreases |b|
  {
    if a == [] then true
    else if b == [] then false
    else if a[0] == b[0] then IsSubsequence(a[1..], b[1..])
    else IsSubsequence(a, b[1..])
  }

  /** The rows whose name matches `term`, in their original order. */
  function FilterRows(rows: seq<Row>, term: string): (r: seq<Row>)
    ensures IsSubsequence(r, rows)
    ensures forall x :: x in r ==> x in rows && NameMatches(x.name, term)
    ensures forall x :: x in rows && NameMatches(x.name, term) ==> x in r
    ensures forall x :: multiset(r)[x] == if NameMatches(x.name, term) then multiset(rows)[x] else 0
  {
    if rows == [] then []
    else
      assert rows == [rows[0]] + rows[1..];
      if NameMatches(rows[0].name, term) then [rows[0]] + FilterRows(rows[1..], term)
      else FilterRows(rows[1..], term)
  }

  /** The names that match `term`, in their original order. */
  function FilterNames(names: seq<string>, term: string): (r: seq<string>)
    ensures IsSubsequence(r, names)
    ensures forall n :: n in r ==> n in names && NameMatches(n, term)
    ensures forall n :: n in names && NameMatches(n, term) ==> n in r
    ensures forall n :: multiset(r)[n] == if NameMatches(n, term) then multiset(names)[n] else 0
  {
    if names == [] then []
    else
      assert names == [names[0]] + names[1..];
      if NameMatches(names[0], term) then [names[0]] + FilterNames(names[1..], term)
      else FilterNames(names[1..], term)
  }

  /** `prepareTableData`: no comparison gives no rows; a non-empty term filters. */
  function TableData(comparison: Option<Comparison>, searchTerm: string): (rows: seq<Row>)
    ensures comparison.None? ==> rows == []
    ensures comparison.Some? && searchTerm == "" ==> rows == AllRows(comparison.value)
    ensures comparison.Some? ==> IsSubsequence(rows, AllRows(comparison.value))
    ensures comparison.Some? ==> forall x :: x in rows <==> x in AllRows(comparison.value) && NameMatches(x.name, searchTerm)
    ensures comparison.Some? ==> forall x ::
      multiset(rows)[x] == if NameMatches(x.name, searchTerm) then multiset(AllRows(comparison.value))[x] else 0
  {
    if comparison.None? then []
    else if searchTerm == "" then
      EmptyTermMatchesAll(searchTerm);
      SubsequenceReflexive(AllRows(comparison.value));
      AllRows(comparison.value)
    else FilterRows(AllRows(comparison.value), searchTerm)
  }

  /** Every name matches the empty term. */
  lemma EmptyTermMatchesAll(term: string)
    requires term == ""
    ensures forall name :: NameMatches(name, term)
  {
    forall name ensures NameMatches(name, term) {
      IncludesEmpty(Lower(name));
    }
  }

  lemma {:induction false} SubsequenceReflexive<T>(s: seq<T>)
    ensures IsSubsequence(s, s)
  {
    if s != [] {
      SubsequenceReflexive(s[1..]);
    }
  }

  /** One `forEach` of `prepareTableData`: pushes a row for each name of a group, in order. */
  method PushGroup(data: seq<Row>, names: seq<string>, status: Status) returns (pushed: seq<Row>)
    ensures pushed == data + Tagged(names, status)
  {
    pushed := data;
    var i := 0;
    while i < |names|
      invariant 0 <= i <= |names|
      invariant pushed == data + Tagged(names[..i], status)
    {
      assert Tagged(names[..i + 1], status) == Tagged(names[..i], status) + [RowFor(names[i], status)];
      pushed := pushed + [RowFor(names[i], status)];
      i := i + 1;
    }
    assert names[..i] == names;
  }

  /**
   * `prepareTableData` as the source writes it: one push loop per group, then a
   * filter when the term is non-empty.
   */
  method PrepareTableData(comparison: Option<Comparison>, searchTerm: string) returns (data: seq<Row>)
    ensures data == TableData(comparison, searchTerm)
  {
    if comparison.None? {
      return [];
    }
    var c := comparison.value;
    data := PushGroup([], OrEmpty(c.onlyInEnv1), OnlyInSource);
    data := PushGroup(data, OrEmpty(c.inBoth), InBoth);
    data := PushGroup(data, OrEmpty(c.onlyInEnv2), OnlyInTarget);
    assert data == AllRows(c);
    if searchTerm != "" {
      data := FilterRows(data, searchTerm);
    }
  }

  /** Filtering distributes over concatenation: each row is kept or dropped on its own. */
  lemma {:induction false} FilterRowsAppend(a: seq<Row>, b: seq<Row>, term: string)
    ensures FilterRows(a + b, term) == FilterRows(a, term) + FilterRows(b, term)
  {
    if a == [] {
      assert a + b == b;
    } else {
      assert (a + b)[0] == a[0];
      assert (a + b)[1..] == a[1..] + b;
      FilterRowsAppend(a[1..], b, term);
    }
  }

  /** Filtering with the empty term keeps every row: the `if (searchTerm)` guard changes nothing. */
  lemma {:induction false} FilterRowsEmptyTerm(rows: seq<Row>)
    ensures FilterRows(rows, "") == rows
  {
    if rows != [] {
      IncludesEmpty(Lower(rows[0].name));
      FilterRowsEmptyTerm(rows[1..]);
    }
  }

  /** The table is always the filter of the unfiltered rows, whatever the term. */
  lemma TableDataIsFilter(c: Comparison, searchTerm: string)
    ensures TableData(Some(c), searchTerm) == FilterRows(AllRows(c), searchTerm)
  {
    if searchTerm == "" {
      FilterRowsEmptyTerm(AllRows(c));
    }
  }

  /** Every row shown carries the key prefix of its own status. */
  lemma TableRowsWellKeyed(comparison: Option<Comparison>, searchTerm: string)
    ensures forall x :: x in TableData(comparison, searchTerm) ==> WellKeyed(x)
  {
    if comparison.Some? {
      var c := comparison.value;
      TaggedWellKeyed(OrEmpty(c.onlyInEnv1), OnlyInSource);
      TaggedWellKeyed(OrEmpty(c.inBoth), InBoth);
      TaggedWellKeyed(OrEmpty(c.onlyInEnv2), OnlyInTarget);
      assert forall x :: x in AllRows(c) ==> WellKeyed(x);
    }
  }

  lemma TaggedWellKeyed(names: seq<string>, status: Status)
    ensures forall x :: x in Tagged(names, status) ==> WellKeyed(x)
  {
  }

  /** `getCopyableSecrets`: source-only names then in-both names, filtered when the term is non-empty. */
  function CopyableSecrets(comparison: Option<Comparison>, searchTerm: string): (r: seq<string>)
    ensures comparison.None? ==> r == []
    ensures comparison.Some? ==>
      var copyable := OrEmpty(comparison.value.onlyInEnv1) + OrEmpty(comparison.value.inBoth);
      && IsSubsequence(r, copyable)
      && (searchTerm == "" ==> r == copyable)
      && (forall n :: n in r <==> n in copyable && NameMatches(n, searchTerm))
      && forall n :: multiset(r)[n] == if NameMatches(n, searchTerm) then multiset(copyable)[n] else 0
  {
    if comparison.None? then []
    else
      var copyable := OrEmpty(comparison.value.onlyInEnv1) + OrEmpty(comparison.value.inBoth);
      if searchTerm != "" then FilterNames(copyable, searchTerm)
      else
        SubsequenceReflexive(copyable);
        EmptyTermMatchesAll(searchTerm);
        copyable
  }

  /** When the server's groups are disjoint, no target-only name is ever copyable. */
  lemma CopyableExcludesTargetOnly(c: Comparison, searchTerm: string)
    requires forall n :: n in OrEmpty(c.onlyInEnv2) ==> n !in OrEmpty(c.onlyInEnv1) && n !in OrEmpty(c.inBoth)
    ensures forall n :: n in CopyableSecrets(Some(c), searchTerm) ==> n !in OrEmpty(c.onlyInEnv2)
  {
  }

  /** The names of the rows whose checkbox is enabled (every status but target-only), in table order. */
  function SelectableNames(rows: seq<Row>): (names: seq<string>)
    ensures |names| <= |rows|
    ensures forall x :: x in rows && x.status != OnlyInTarget ==> x.name in names
  {
    if rows == [] then []
    else if rows[0].status == OnlyInTarget then SelectableNames(rows[1..])
    else [rows[0].name] + SelectableNames(rows[1..])
  }

  lemma {:induction false} SelectableNamesAppend(a: seq<Row>, b: seq<Row>)
    ensures SelectableNames(a + b) == SelectableNames(a) + SelectableNames(b)
  {
    if a == [] {
      assert a + b == b;
    } else {
      assert (a + b)[0] == a[0];
      assert (a + b)[1..] == a[1..] + b;
      SelectableNamesAppend(a[1..], b);
    }
  }

  lemma {:induction false} SelectableOfFilteredGroup(names: seq<string>, status: Status, term: string)
    ensures SelectableNames(FilterRows(Tagged(names, status), term))
      == if status == OnlyInTarget then [] else FilterNames(names, term)
  {
    if names != [] {
      assert Tagged(names, status)[1..] == Tagged(names[1..], status);
      SelectableOfFilteredGroup(names[1..], status, term);
    }
  }

  lemma {:induction false} FilterNamesAppend(a: seq<string>, b: seq<string>, term: string)
    ensures FilterNames(a + b, term) == FilterNames(a, term) + FilterNames(b, term)
  {
    if a == [] {
      assert a + b == b;
    } else {
      assert (a + b)[0] == a[0];
      assert (a + b)[1..] == a[1..] + b;
      FilterNamesAppend(a[1..], b, term);
    }
  }

  lemma {:induction false} FilterNamesEmptyTerm(names: seq<string>)
    ensures FilterNames(names, "") == names
  {
    if names != [] {
      IncludesEmpty(Lower(names[0]));
      FilterNamesEmptyTerm(names[1..]);
    }
  }

  /**
   * Select-all picks exactly the names of the rows currently shown whose checkbox
   * is enabled, in table order.
   */
  lemma CopyableAreSelectableRows(comparison: Option<Comparison>, searchTerm: string)
    ensures CopyableSecrets(comparison, searchTerm) == SelectableNames(TableData(comparison, searchTerm))
  {
    if comparison.Some? {
      var c := comparison.value;
      var g1, g2, g3 := OrEmpty(c.onlyInEnv1), OrEmpty(c.inBoth), OrEmpty(c.onlyInEnv2);
      var t1, t2, t3 := Tagged(g1, OnlyInSource), Tagged(g2, InBoth), Tagged(g3, OnlyInTarget);
      TableDataIsFilter(c, searchTerm);
      assert AllRows(c) == t1 + t2 + t3;
      FilterRowsAppend(t1 + t2, t3, searchTerm);
      FilterRowsAppend(t1, t2, searchTerm);
      SelectableNamesAppend(FilterRows(t1, searchTerm) + FilterRows(t2, searchTerm), FilterRows(t3, searchTerm));
      SelectableNamesAppend(FilterRows(t1, searchTerm), FilterRows(t2, searchTerm));
      SelectableOfFilteredGroup(g1, OnlyInSource, searchTerm);
      SelectableOfFilteredGroup(g2, InBoth, searchTerm);
      SelectableOfFilteredGroup(g3, OnlyInTarget, searchTerm);
      FilterNamesAppend(g1, g2, searchTerm);
      if searchTerm == "" {
        FilterNamesEmptyTerm(g1 + g2);
      }
    }
  }

  /** A shown row whose checkbox is enabled contributes its name to the selectable names. */
  lemma {:induction false} SelectableNamesHas(rows: seq<Row>, row: Row)
    requires row in rows && row.status != OnlyInTarget
    ensures row.name in SelectableNames(rows)
  {
    if rows[0] != row {
      SelectableNamesHas(rows[1..], row);
    }
  }

  /**
   * Ticking the checkbox of any row on show (target-only rows have theirs
   * disabled) selects a name that is source-only or in both environments.
   */
  lemma ShownRowIsCopyable(comparison: Option<Comparison>, searchTerm: string, row: Row)
    requires row in TableData(comparison, searchTerm) && row.status != OnlyInTarget
    ensures row.name in CopyableSecrets(comparison, "")
  {
    SelectableNamesHas(TableData(comparison, searchTerm), row);
    CopyableAreSelectableRows(comparison, searchTerm);
  }

  /** `names.filter(s => s !== name)`: every occurrence of `name` removed, the rest kept in order. */
  function Without(names: seq<string>, name: string): (r: seq<string>)
    ensures IsSubsequence(r, names)
    ensures name !in r
    ensures forall n :: n != name ==> (n in r <==> n in names)
    ensures |r| == |names| - multiset(names)[name]
  {
    if names == [] then []
    else
      assert names == [names[0]] + names[1..];
      if names[0] == name then Without(names[1..], name)
      else [names[0]] + Without(names[1..], name)
  }

  /** Index of the first environment with id `envId` (JavaScript `findIndex`). */
  function FindFrom(environments: seq<Environment>, envId: string, from: nat): (r: Option<nat>)
    decreases |environments| - from
    ensures r.Some? ==> from <= r.value < |environments| && environments[r.value].id == envId
    ensures r.Some? ==> forall j :: from <= j < r.value ==> environments[j].id != envId
    ensures r.None? ==> forall j :: from <= j < |environments| ==> environments[j].id != envId
  {
    if from >= |environments| then None
    else if environments[from].id == envId then Some(from)
    else FindFrom(environments, envId, from + 1)
  }

  /** `getEnvironment`: the first environment whose id is `envId`, if any. */
  function GetEnvironment(environments: seq<Environment>, envId: string): (r: Option<Environment>)
    ensures r.None? <==> forall e :: e in environments ==> e.id != envId
    ensures r.Some? ==> r.value.id == envId
    ensures r.Some? ==> exists i :: (0 <= i < |environments| && environments[i] == r.value
      && forall j :: 0 <= j < i ==> environments[j].id != envId)
  {
    var k := FindFrom(environments, envId, 0);
    if k.None? then None
    else
      assert environments[k.value] in environments;
      Some(environments[k.value])
  }

  /** `getEnvironmentName`: the first match's name, or the id itself when there is none or it is empty. */
  function EnvironmentName(environments: seq<Environment>, envId: string): (r: string)
    ensures r != envId ==> exists e :: e in environments && e.id == envId && e.name == Some(r)
    ensures (forall e :: e in environments ==> e.id != envId) ==> r == envId
    ensures forall i ::
      (0 <= i < |environments| && environments[i].id == envId
       && forall j :: 0 <= j < i ==> environments[j].id != envId) ==>
      r == if Truthy(environments[i].name) then environments[i].name.value else envId
  {
    FirstMatchIsFound(environments, envId);
    var e := GetEnvironment(environments, envId);
    if e.Some? && Truthy(e.value.name) then e.value.name.value else envId
  }

  /** An environment with the id and no earlier one with it is the one `find` returns. */
  lemma FirstMatchIsFound(environments: seq<Environment>, envId: string)
    ensures forall i ::
      (0 <= i < |environments| && environments[i].id == envId
       && forall j :: 0 <= j < i ==> environments[j].id != envId) ==>
      GetEnvironment(environments, envId) == Some(environments[i])
  {
    var k := FindFrom(environments, envId, 0);
    forall i | 0 <= i < |environments| && environments[i].id == envId
      && forall j :: 0 <= j < i ==> environments[j].id != envId
      ensures k == Some(i)
    {
      assert k.Some?;
      assert !(k.value < i) && !(i < k.value);
    }
  }

  /** The default colour of an environment that is not found or has no colour. */
  const DefaultColor: string := "#1890ff"

  /** `getEnvironmentColor`: the first match's colour, or `#1890ff`. */
  function EnvironmentColor(environments: seq<Environment>, envId: string): (r: string)
    ensures r != DefaultColor ==> exists e :: e in environments && e.id == envId && e.color == Some(r)
    ensures (forall e :: e in environments ==> e.id != envId) ==> r == DefaultColor
    ensures forall i ::
      (0 <= i < |environments| && environments[i].id == envId
       && forall j :: 0 <= j < i ==> environments[j].id != envId) ==>
      r == if Truthy(environments[i].color) then environments[i].color.value else DefaultColor
  {
    FirstMatchIsFound(environments, envId);
    var e := GetEnvironment(environments, envId);
    if e.Some? && Truthy(e.value.color) then e.value.color.value else DefaultColor
  }

  /** The first matching environment decides the name, even when a later one has a different name. */
  lemma EnvironmentNameOfFirstMatch(environments: seq<Environment>, envId: string, i: nat)
    requires i < |environments| && environments[i].id == envId
    requires forall j :: 0 <= j < i ==> environments[j].id != envId
    ensures EnvironmentName(environments, envId)
      == if Truthy(environments[i].name) then environments[i].name.value else envId
    ensures EnvironmentColor(environments, envId)
      == if Truthy(environments[i].color) then environments[i].color.value else DefaultColor
  {
    var k := FindFrom(environments, envId, 0);
    assert k.Some?;
    assert k.value == i;
  }

  /** One side of the exported report: an environment id and the name shown for it. */
  datatype EnvRef = EnvRef(id: string, name: Option<string>)

  /** The report object that `exportComparison` serialises (its timestamp is left out). */
  datatype Report = Report(
    source: EnvRef,
    target: EnvRef,
    summary: Option<Summary>,
    onlyInSource: Option<seq<string>>,
    onlyInTarget: Option<seq<string>>,
    inBoth: Option<seq<string>>)

  /** The report object built in `exportComparison`; names are resolved with `getEnvironmentName`. */
  function ExportReport(c: Comparison, environments: seq<Environment>, sourceEnv: string, targetEnv: string): (r: Report)
    ensures r.source.id == sourceEnv && r.target.id == targetEnv
    ensures r.source.name == Some(EnvironmentName(environments, sourceEnv))
    ensures r.target.name == Some(EnvironmentName(environments, targetEnv))
  {
    Report(
      EnvRef(sourceEnv, Some(EnvironmentName(environments, sourceEnv))),
      EnvRef(targetEnv, Some(EnvironmentName(environments, targetEnv))),
      c.summary, c.onlyInEnv1, c.onlyInEnv2, c.inBoth)
  }

  /** Reads a comparison back from a report: the source-only list is the server's `onlyInEnv1`, and so on. */
  function ReportedComparison(r: Report): Comparison {
    Comparison(r.onlyInSource, r.inBoth, r.onlyInTarget, r.summary)
  }

  /**
   * The report renames `onlyInEnv1` to `onlyInSource` and `onlyInEnv2` to
   * `onlyInTarget` and loses nothing: the comparison can be read back from it.
   */
  lemma ReportKeepsComparison(c: Comparison, environments: seq<Environment>, sourceEnv: string, targetEnv: string)
    ensures ReportedComparison(ExportReport(c, environments, sourceEnv, targetEnv)) == c
    ensures ExportReport(c, environments, sourceEnv, targetEnv).summary == c.summary
  {
  }
}
