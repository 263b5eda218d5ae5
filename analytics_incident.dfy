/** `pd analytics incident`: build the filter for the incident analytics
    endpoint from team and service names, and shape the columns of the two
    tables (mean values, total values) the result is printed in. */
module AnalyticsIncident {
  import opened Wrappers
  import opened Values
  import opened Sequences
  import opened Strings

  /** The parsed flags that reach the request; `None` for a flag not given. */
  datatype Flags = Flags(teams: Option<seq<string>>, services: Option<seq<string>>, major: bool,
                         since: Option<string>, until: Option<string>, aggregateUnit: Option<string>)

  /** What the remote lookups and the date parser returned: the team IDs
      found for each team name and the service IDs found for each service
      name (same order as the names), and the ISO form of the parsed
      `--since`/`--until` dates (`None` when the phrase was not understood). */
  datatype Lookups = Lookups(teamMatches: seq<seq<string>>, serviceMatches: seq<seq<string>>,
                             sinceIso: Option<string>, untilIso: Option<string>)

  /** `data.filters`; an optional field is `None` when it was never set. */
  datatype Filters = Filters(major: bool, teamIds: Option<seq<string>>, serviceIds: Option<seq<string>>,
                             createdAtStart: Option<string>, createdAtEnd: Option<string>)

  /** `data`, the body posted to the analytics endpoint. */
  datatype Query = Query(filters: Filters, aggregateUnit: Option<string>)

  /** The two ways the command stops with exit code 1 before the query. */
  datatype Error = NoTeamsFound | NoServicesFound

  /** A string flag is truthy when given and not empty. */
  predicate Given(o: Option<string>)
    ensures Given(o) <==> o.Some? && Truthy(Str(o.value))
  {
    o.Some? && o.value != ""
  }

  /** A name-lookup loop: `ids = [...ids, ...r.map(e => e.id)]` for the IDs
      `r` found for each name in turn. */
  method GatherIds(matches: seq<seq<string>>) returns (ids: seq<string>)
    ensures ids == Flatten(matches)
  {
    ids := [];
    for i := 0 to |matches|
      invariant ids == Flatten(matches[..i])
    {
      assert matches[..i + 1][..i] == matches[..i];
      ids := ids + matches[i];
    }
    assert matches[..|matches|] == matches;
  }

  /** Everything `run()` does to `data` before posting it. */
  method BuildQuery(f: Flags, l: Lookups) returns (r: Result<Query, Error>)
    requires f.teams.Some? ==> |l.teamMatches| == |f.teams.value|
    requires f.services.Some? ==> |l.serviceMatches| == |f.services.value|
    ensures r == Err(NoTeamsFound) <==>
      f.teams.Some? && forall i :: 0 <= i < |l.teamMatches| ==> l.teamMatches[i] == []
    ensures r == Err(NoServicesFound) <==>
      !(f.teams.Some? && forall i :: 0 <= i < |l.teamMatches| ==> l.teamMatches[i] == []) &&
      f.services.Some? && forall i :: 0 <= i < |l.serviceMatches| ==> l.serviceMatches[i] == []
    ensures r.Ok? ==> r.value.filters.major == f.major
    ensures r.Ok? ==> r.value.aggregateUnit == if Given(f.aggregateUnit) then f.aggregateUnit else None
    ensures r.Ok? ==>
      r.value.filters.teamIds == if f.teams.Some? then Some(Dedup(Flatten(l.teamMatches))) else None
    ensures r.Ok? ==>
      r.value.filters.serviceIds == if f.services.Some? then Some(Dedup(Flatten(l.serviceMatches))) else None
    ensures r.Ok? ==> r.value.filters.createdAtStart == if Given(f.since) then l.sinceIso else None
    ensures r.Ok? ==> r.value.filters.createdAtEnd == if Given(f.until) then l.untilIso else None
  {
    FlattenEmpty(l.teamMatches);
    FlattenEmpty(l.serviceMatches);
    var data := Query(Filters(f.major, None, None, None, None), None);
    if Given(f.aggregateUnit) {
      data := data.(aggregateUnit := f.aggregateUnit);
    }
    if f.teams.Some? {
      var teams := GatherIds(l.teamMatches);
      var teamIds := Dedup(teams);
      if |teamIds| == 0 {
        return Err(NoTeamsFound);
      }
      data := data.(filters := data.filters.(teamIds := Some(teamIds)));
    }
    if f.services.Some? {
      var services := GatherIds(l.serviceMatches);
      var serviceIds := Dedup(services);
      if |serviceIds| == 0 {
        return Err(NoServicesFound);
      }
      data := data.(filters := data.filters.(serviceIds := Some(serviceIds)));
    }
    if Given(f.since) && l.sinceIso.Some? {
      data := data.(filters := data.filters.(createdAtStart := l.sinceIso));
    }
    if Given(f.until) && l.untilIso.Some? {
      data := data.(filters := data.filters.(createdAtEnd := l.untilIso));
    }
    r := Ok(data);
  }

  /** How a column reads its cell from a result row: the locale string of a
      date (`localeString` stands for `new Date(...).toLocaleString()`), or
      the field itself with `null` shown as `''`. */
  datatype Getter = LocalDate(field: string) | BlankIfNull(field: string)

  datatype Column = Column(key: string, getter: Getter)

  function Cell(g: Getter, row: Record, localeString: Value -> string): Value
  {
    match g
    case LocalDate(field) => Str(localeString(Property(row, field)))
    case BlankIfNull(field) => if Property(row, field) == Null then Str("") else Property(row, field)
  }

  /** The column table, in declaration order: `range_start`, then the seven
      `mean_` columns, then the seven `total_` columns. */
  const ColumnTable: seq<Column> := [RangeStart] + Metrics

  const RangeStart: Column := Column("range_start", LocalDate("range_start"))

  /** The columns after `range_start`. */
  const Metrics: seq<Column> := MeanMetrics + TotalMetrics

  const MeanMetrics: seq<Column> := MetricColumns("mean_", MeanFields)

  const TotalMetrics: seq<Column> := MetricColumns("total_", TotalFields)

  /** The names of the `mean_` columns with that prefix left off. */
  const MeanFields: seq<string> := [
    "assignment_count", "engaged_seconds", "engaged_user_count", "seconds_to_engage",
    "seconds_to_first_ack", "seconds_to_mobilize", "seconds_to_resolve"
  ]

  /** The names of the `total_` columns with that prefix left off. */
  const TotalFields: seq<string> := [
    "business_hour_interruptions", "engaged_seconds", "escalation_count", "incident_count",
    "off_hour_interruptions", "sleep_hour_interruptions", "snoozed_seconds"
  ]

  /** A column named `prefix + f` for each `f` in `fields`, showing the
      row's field of that name with `null` as `''`. */
  function MetricColumns(prefix: string, fields: seq<string>): seq<Column>
  {
    seq(|fields|, i requires 0 <= i < |fields| => Column(prefix + fields[i], BlankIfNull(prefix + fields[i])))
  }

  function Keys(cols: seq<Column>): (ks: seq<string>)
    ensures |ks| == |cols| && forall i :: 0 <= i < |cols| ==> ks[i] == cols[i].key
  {
    seq(|cols|, i requires 0 <= i < |cols| => cols[i].key)
  }

  /** Every column but `range_start` shows its own field of the row, with
      `null` as `''` and any other value unchanged; no cell is ever `null`. */
  lemma ColumnGetters(row: Record, localeString: Value -> string)
    ensures ColumnTable[0] == Column("range_start", LocalDate("range_start"))
    ensures forall i :: 1 <= i < |ColumnTable| ==>
      Cell(ColumnTable[i].getter, row, localeString) ==
        if Property(row, ColumnTable[i].key) == Null then Str("") else Property(row, ColumnTable[i].key)
    ensures forall i :: 0 <= i < |ColumnTable| ==> Cell(ColumnTable[i].getter, row, localeString) != Null
  {
    forall i | 1 <= i < |ColumnTable|
      ensures ColumnTable[i].getter == BlankIfNull(ColumnTable[i].key)
    {
      var k := i - 1;
      assert ColumnTable[i] == Metrics[k];
      if k < |MeanMetrics| {
        assert Metrics[k] == MeanMetrics[k];
      } else {
        assert Metrics[k] == TotalMetrics[k - |MeanMetrics|];
      }
    }
  }

  /** `delete columns[key]` */
  function RemoveKey(cols: seq<Column>, key: string): (r: seq<Column>)
    ensures forall c :: c in r <==> c in cols && c.key != key
    ensures |r| <= |cols|
  {
    if cols == [] then []
    else (if cols[0].key == key then [] else [cols[0]]) + RemoveKey(cols[1..], key)
  }

  /** The columns after `range_start` is deleted when no aggregate unit was
      given. */
  function ColumnsFor(aggregateUnit: Option<string>): seq<Column>
  {
    if Given(aggregateUnit) then ColumnTable else RemoveKey(ColumnTable, "range_start")
  }

  /** `[range_start]` when an aggregate unit was given, otherwise nothing. */
  function Head(aggregateUnit: Option<string>): seq<Column>
  {
    if Given(aggregateUnit) then [RangeStart] else []
  }

  /** `range_start` is dropped exactly when there is no aggregate unit, and
      every other column stays, in order. */
  lemma ColumnsForShape(aggregateUnit: Option<string>)
    ensures ColumnsFor(aggregateUnit) == Head(aggregateUnit) + Metrics
    ensures "range_start" in Keys(ColumnsFor(aggregateUnit)) <==> Given(aggregateUnit)
  {
    RangeStartNotMetric();
    RemoveLeadingKey(RangeStart, Metrics, "range_start");
    assert "range_start" in Keys([RangeStart] + Metrics) by {
      assert Keys([RangeStart] + Metrics)[0] == RangeStart.key;
    }
  }

  /** Deleting the key of the first column, which no later column has,
      leaves the later columns. */
  lemma RemoveLeadingKey(c: Column, rest: seq<Column>, key: string)
    requires c.key == key && key !in Keys(rest)
    ensures RemoveKey([c] + rest, key) == rest
  {
    assert ([c] + rest)[1..] == rest;
    RemoveKeyAbsent(rest, key);
  }

  /** A metric column starts with the first character of its prefix. */
  lemma MetricKeysStart(prefix: string, fields: seq<string>)
    requires prefix != []
    ensures forall i :: 0 <= i < |fields| ==> MetricColumns(prefix, fields)[i].key[0] == prefix[0]
  {
  }

  /** No metric column is called `range_start`: their names begin with `m`
      or `t`. */
  lemma RangeStartNotMetric()
    ensures "range_start" !in Keys(Metrics)
  {
    MetricKeysStart("mean_", MeanFields);
    MetricKeysStart("total_", TotalFields);
    forall i | 0 <= i < |Metrics| ensures Metrics[i].key[0] != 'r' {
      if i < |MeanMetrics| {
        assert Metrics[i] == MeanMetrics[i];
      } else {
        assert Metrics[i] == TotalMetrics[i - |MeanMetrics|];
      }
    }
  }

  lemma {:induction false} RemoveKeyAbsent(cols: seq<Column>, key: string)
    requires key !in Keys(cols)
    ensures RemoveKey(cols, key) == cols
  {
    if cols != [] {
      assert Keys(cols)[0] == cols[0].key;
      assert Keys(cols[1..]) == Keys(cols)[1..];
      RemoveKeyAbsent(cols[1..], key);
    }
  }

  /** The filter of the mean and total tables:
      `k === 'range_start' || k.indexOf(word) > -1`. */
  predicate InTable(key: string, word: string)
  {
    key == "range_start" || Contains(key, word)
  }

  /** The filter callback for `word`, as a function of the key. */
  function TableFilter(word: string): string -> bool
  {
    key => InTable(key, word)
  }

  /** `Object.entries(columns).filter(([k, _v]) => keep(k))` */
  function Select(cols: seq<Column>, keep: string -> bool): (r: seq<Column>)
    ensures |r| <= |cols|
  {
    if cols == [] then []
    else (if keep(cols[0].key) then [cols[0]] else []) + Select(cols[1..], keep)
  }

  /** The filter keeps exactly the columns whose key passes it. */
  lemma {:induction false} SelectMembers(cols: seq<Column>, keep: string -> bool)
    ensures forall c :: c in Select(cols, keep) <==> c in cols && keep(c.key)
  {
    if cols != [] {
      SelectMembers(cols[1..], keep);
      assert cols == [cols[0]] + cols[1..];
    }
  }

  /** Filtering keeps the table's order: it distributes over concatenation. */
  lemma {:induction false} SelectAppend(a: seq<Column>, b: seq<Column>, keep: string -> bool)
    ensures Select(a + b, keep) == Select(a, keep) + Select(b, keep)
  {
    if a != [] {
      assert (a + b)[1..] == a[1..] + b;
      SelectAppend(a[1..], b, keep);
    } else {
      assert a + b == b;
    }
  }

  /** `.map(([k, v]) => [k.replace(/^prefix/, ''), v])` */
  function Rename(cols: seq<Column>, prefix: string): (r: seq<Column>)
    ensures |r| == |cols|
    ensures forall i :: 0 <= i < |cols| ==> r[i].getter == cols[i].getter
    ensures forall i :: 0 <= i < |cols| ==>
      if prefix <= cols[i].key then prefix + r[i].key == cols[i].key else r[i].key == cols[i].key
  {
    seq(|cols|, i requires 0 <= i < |cols| => Column(StripPrefix(cols[i].key, prefix), cols[i].getter))
  }

  /** `Object.fromEntries(entries)`: a key seen again keeps its first
      position and takes the later getter. */
  function FromEntries(entries: seq<Column>): (r: seq<Column>)
    ensures Keys(r) == Dedup(Keys(entries))
    decreases |entries|
  {
    if entries == [] then []
    else
      var init := entries[..|entries| - 1];
      var e := entries[|entries| - 1];
      assert Keys(entries) == Keys(init) + [e.key];
      var obj := FromEntries(init);
      if e.key in Keys(obj) then
        var r := obj[FirstIndex(Keys(obj), e.key) := e];
        assert Keys(r) == Keys(obj);
        r
      else
        assert Keys(obj + [e]) == Keys(obj) + [e.key];
        obj + [e]
  }

  /** Without repeated keys, `Object.fromEntries` keeps every entry in order. */
  lemma {:induction false} FromEntriesDistinct(entries: seq<Column>)
    requires NoDuplicates(Keys(entries))
    ensures FromEntries(entries) == entries
    decreases |entries|
  {
    if entries != [] {
      var init := entries[..|entries| - 1];
      var e := entries[|entries| - 1];
      assert Keys(entries) == Keys(init) + [e.key];
      assert NoDuplicates(Keys(init));
      FromEntriesDistinct(init);
      assert forall k :: 0 <= k < |init| ==> Keys(init)[k] == Keys(entries)[k];
      assert e.key !in Keys(init);
      assert entries == init + [e];
    }
  }

  /** The last entry whose key is `key`. */
  function LastEntry(entries: seq<Column>, key: string): (c: Column)
    requires key in Keys(entries)
    ensures c in entries && c.key == key
    decreases |entries|
  {
    var init := entries[..|entries| - 1];
    var e := entries[|entries| - 1];
    if e.key == key then e
    else
      assert Keys(entries) == Keys(init) + [e.key];
      LastEntry(init, key)
  }

  /** In the object `Object.fromEntries` builds, each key holds the value of
      the last entry with that key. */
  lemma {:induction false} FromEntriesLastWins(entries: seq<Column>)
    ensures forall k :: 0 <= k < |FromEntries(entries)| ==>
      FromEntries(entries)[k].key in Keys(entries) &&
      FromEntries(entries)[k] == LastEntry(entries, FromEntries(entries)[k].key)
    decreases |entries|
  {
    if entries != [] {
      var init := entries[..|entries| - 1];
      var e := entries[|entries| - 1];
      assert Keys(entries) == Keys(init) + [e.key];
      FromEntriesLastWins(init);
      var obj := FromEntries(init);
      var r := FromEntries(entries);
      forall k | 0 <= k < |r|
        ensures r[k].key in Keys(entries) && r[k] == LastEntry(entries, r[k].key)
      {
        assert Keys(r)[k] == r[k].key;
        if r[k] != e {
          if e.key in Keys(obj) {
            var idx := FirstIndex(Keys(obj), e.key);
            assert r == obj[idx := e];
            assert k != idx && r[k] == obj[k];
            assert Keys(obj)[k] != Keys(obj)[idx];
          } else {
            assert r == obj + [e];
            assert k < |obj| && r[k] == obj[k];
            assert Keys(obj)[k] == obj[k].key;
          }
          assert r[k].key != e.key;
        }
      }
    }
  }

  /** The columns of the table for `word`: the selected columns, renamed,
      gathered into an object. */
  function Subtable(cols: seq<Column>, word: string, prefix: string): seq<Column>
  {
    FromEntries(Rename(Select(cols, TableFilter(word)), prefix))
  }

  function MeanColumns(cols: seq<Column>): seq<Column>
  {
    Subtable(cols, "mean", "mean_")
  }

  function TotalColumns(cols: seq<Column>): seq<Column>
  {
    Subtable(cols, "total", "total_")
  }

  /** When renaming does not make two keys equal, the table for `word` holds
      exactly the columns whose key is `range_start` or contains `word`, in
      their original order, each with a leading `prefix` (and only a leading
      one) removed from its key and with its getter unchanged. */
  lemma SubtableShape(cols: seq<Column>, word: string, prefix: string)
    requires NoDuplicates(Keys(Rename(Select(cols, TableFilter(word)), prefix)))
    ensures Subtable(cols, word, prefix) == Rename(Select(cols, TableFilter(word)), prefix)
    ensures forall c :: c in Select(cols, TableFilter(word)) <==> c in cols && InTable(c.key, word)
  {
    FromEntriesDistinct(Rename(Select(cols, TableFilter(word)), prefix));
    SelectMembers(cols, TableFilter(word));
  }

  /** All columns pass the filter, so it keeps them all. */
  lemma {:induction false} SelectAll(cols: seq<Column>, keep: string -> bool)
    requires forall i :: 0 <= i < |cols| ==> keep(cols[i].key)
    ensures Select(cols, keep) == cols
  {
    if cols != [] {
      SelectAll(cols[1..], keep);
    }
  }

  /** No column passes the filter. */
  lemma {:induction false} SelectNone(cols: seq<Column>, keep: string -> bool)
    requires forall i :: 0 <= i < |cols| ==> !keep(cols[i].key)
    ensures Select(cols, keep) == []
  {
    if cols != [] {
      SelectNone(cols[1..], keep);
    }
  }

  /** Which metric columns pass the mean filter and which the total filter:
      the `mean_` columns contain `mean` and not `total`, the `total_`
      columns the other way round. */
  lemma MetricFilters()
    ensures forall i :: 0 <= i < |MeanMetrics| ==>
      InTable(MeanMetrics[i].key, "mean") && !InTable(MeanMetrics[i].key, "total")
    ensures forall i :: 0 <= i < |TotalMetrics| ==>
      !InTable(TotalMetrics[i].key, "mean") && InTable(TotalMetrics[i].key, "total")
  {
    MeanFieldsWithoutTot();
    TotalFieldsWithoutM();
    forall i | 0 <= i < |MeanMetrics|
      ensures InTable(MeanMetrics[i].key, "mean") && !InTable(MeanMetrics[i].key, "total")
    {
      PrefixPasses("mean_", MeanFields[i], "mean");
      MeanColumnFailsTotal(MeanFields[i]);
    }
    forall i | 0 <= i < |TotalMetrics|
      ensures !InTable(TotalMetrics[i].key, "mean") && InTable(TotalMetrics[i].key, "total")
    {
      PrefixPasses("total_", TotalFields[i], "total");
      TotalColumnFailsMean(TotalFields[i]);
    }
  }

  /** A name that starts with `word` passes the filter for `word`. */
  lemma PrefixPasses(prefix: string, field: string, word: string)
    requires word <= prefix
    ensures InTable(prefix + field, word)
  {
    assert (prefix + field)[..|word|] == prefix[..|word|];
    ContainsPrefix(prefix + field, word);
  }

  /** `mean_ + field` never contains `total` when `field` holds no `tot`. */
  lemma MeanColumnFailsTotal(field: string)
    requires NoTot(field)
    ensures !InTable("mean_" + field, "total")
  {
    var s := "mean_" + field;
    assert s[0] == 'm';
    forall k | 0 <= k && k + 2 < |s|
      ensures !(s[k] == "total"[0] && s[k + 1] == "total"[1] && s[k + 2] == "total"[2])
    {
      if k >= 5 {
        assert s[k] == field[k - 5] && s[k + 1] == field[k - 4] && s[k + 2] == field[k - 3];
      } else {
        assert s[k] == "mean_"[k];
      }
    }
    NotContainsWithoutLeadingTriple(s, "total");
  }

  /** `total_ + field` never contains `mean` when `field` holds no `m`. */
  lemma TotalColumnFailsMean(field: string)
    requires NoM(field)
    ensures !InTable("total_" + field, "mean")
  {
    var s := "total_" + field;
    assert s[0] == 't';
    forall k | 0 <= k < |s| ensures s[k] != "mean"[0] {
      if k >= 6 {
        assert s[k] == field[k - 6];
      } else {
        assert s[k] == "total_"[k];
      }
    }
    NotContainsWithoutFirstChar(s, "mean");
  }

  /** `field` holds no `tot`. */
  predicate NoTot(field: string)
  {
    forall k :: 0 <= k && k + 2 < |field| ==> !(field[k] == 't' && field[k + 1] == 'o' && field[k + 2] == 't')
  }

  /** `field` holds no `m`. */
  predicate NoM(field: string)
  {
    forall k :: 0 <= k < |field| ==> field[k] != 'm'
  }

  /** No mean field holds `tot`. The fact is proved one field name at a
      time, in the lemmas below, so that each proof unfolds a single string
      literal: checking all seven names in one proof is far more costly. */
  lemma MeanFieldsWithoutTot()
    ensures forall i :: 0 <= i < |MeanFields| ==> NoTot(MeanFields[i])
  {
    MeanFieldWithoutTot0();
    MeanFieldWithoutTot1();
    MeanFieldWithoutTot2();
    MeanFieldWithoutTot3();
    MeanFieldWithoutTot4();
    MeanFieldWithoutTot5();
    MeanFieldWithoutTot6();
  }

  /** No total field holds an `m`, again proved one field name at a time. */
  lemma TotalFieldsWithoutM()
    ensures forall i :: 0 <= i < |TotalFields| ==> NoM(TotalFields[i])
  {
    TotalFieldWithoutM0();
    TotalFieldWithoutM1();
    TotalFieldWithoutM2();
    TotalFieldWithoutM3();
    TotalFieldWithoutM4();
    TotalFieldWithoutM5();
    TotalFieldWithoutM6();
  }

  lemma MeanFieldWithoutTot0()
    ensures NoTot(MeanFields[0])
  {
  }

  lemma MeanFieldWithoutTot1()
    ensures NoTot(MeanFields[1])
  {
  }

  lemma MeanFieldWithoutTot2()
    ensures NoTot(MeanFields[2])
  {
  }

  lemma MeanFieldWithoutTot3()
    ensures NoTot(MeanFields[3])
  {
  }

  lemma MeanFieldWithoutTot4()
    ensures NoTot(MeanFields[4])
  {
  }

  lemma MeanFieldWithoutTot5()
    ensures NoTot(MeanFields[5])
  {
  }

  lemma MeanFieldWithoutTot6()
    ensures NoTot(MeanFields[6])
  {
  }

  lemma TotalFieldWithoutM0()
    ensures NoM(TotalFields[0])
  {
  }

  lemma TotalFieldWithoutM1()
    ensures NoM(TotalFields[1])
  {
  }

  lemma TotalFieldWithoutM2()
    ensures NoM(TotalFields[2])
  {
  }

  lemma TotalFieldWithoutM3()
    ensures NoM(TotalFields[3])
  {
  }

  lemma TotalFieldWithoutM4()
    ensures NoM(TotalFields[4])
  {
  }

  lemma TotalFieldWithoutM5()
    ensures NoM(TotalFields[5])
  {
  }

  lemma TotalFieldWithoutM6()
    ensures NoM(TotalFields[6])
  {
  }

  /** Filtering the parts of a concatenation filters the whole. */
  lemma SelectThreeParts(a: seq<Column>, b: seq<Column>, c: seq<Column>,
                         a': seq<Column>, b': seq<Column>, c': seq<Column>, keep: string -> bool)
    requires Select(a, keep) == a' && Select(b, keep) == b' && Select(c, keep) == c'
    ensures Select(a + (b + c), keep) == a' + (b' + c')
  {
    SelectAppend(b, c, keep);
    assert Select(b + c, keep) == b' + c';
    SelectAppend(a, b + c, keep);
  }

  /** `range_start` passes every filter. */
  lemma HeadPasses(aggregateUnit: Option<string>, word: string)
    ensures Select(Head(aggregateUnit), TableFilter(word)) == Head(aggregateUnit)
  {
    if Given(aggregateUnit) {
      assert InTable(RangeStart.key, word);
      assert [RangeStart][1..] == [];
    }
  }

  /** The mean filter keeps `range_start` when it is there and the seven
      `mean_` columns, in order. */
  lemma SelectMeanOfTable(aggregateUnit: Option<string>)
    ensures Select(ColumnsFor(aggregateUnit), TableFilter("mean")) == Head(aggregateUnit) + MeanMetrics
  {
    var keep := TableFilter("mean");
    ColumnsForShape(aggregateUnit);
    MetricFilters();
    HeadPasses(aggregateUnit, "mean");
    SelectAll(MeanMetrics, keep);
    SelectNone(TotalMetrics, keep);
    SelectThreeParts(Head(aggregateUnit), MeanMetrics, TotalMetrics, Head(aggregateUnit), MeanMetrics, [], keep);
    assert MeanMetrics + [] == MeanMetrics;
  }

  /** The total filter keeps `range_start` when it is there and the seven
      `total_` columns, in order. */
  lemma SelectTotalOfTable(aggregateUnit: Option<string>)
    ensures Select(ColumnsFor(aggregateUnit), TableFilter("total")) == Head(aggregateUnit) + TotalMetrics
  {
    var keep := TableFilter("total");
    ColumnsForShape(aggregateUnit);
    MetricFilters();
    HeadPasses(aggregateUnit, "total");
    SelectNone(MeanMetrics, keep);
    SelectAll(TotalMetrics, keep);
    SelectThreeParts(Head(aggregateUnit), MeanMetrics, TotalMetrics, Head(aggregateUnit), [], TotalMetrics, keep);
    assert [] + TotalMetrics == TotalMetrics;
  }

  /** A column named `f` for each `f` in `fields` that still shows the row's
      field `prefix + f`: a metric column after its prefix is removed. */
  function RenamedColumns(prefix: string, fields: seq<string>): seq<Column>
  {
    seq(|fields|, i requires 0 <= i < |fields| => Column(fields[i], BlankIfNull(prefix + fields[i])))
  }

  /** Removing the prefix from `prefix + f` gives back `f`; the getter still
      reads `prefix + f`. */
  lemma RenameMetricColumns(prefix: string, fields: seq<string>)
    ensures Rename(MetricColumns(prefix, fields), prefix) == RenamedColumns(prefix, fields)
  {
    forall i | 0 <= i < |fields| ensures StripPrefix(prefix + fields[i], prefix) == fields[i] {
      assert prefix <= prefix + fields[i];
      assert (prefix + fields[i])[|prefix|..] == fields[i];
    }
  }

  /** A prefix that does not start with `r` leaves `range_start` alone. */
  lemma RenameHead(aggregateUnit: Option<string>, prefix: string)
    requires prefix != [] && prefix[0] != 'r'
    ensures Rename(Head(aggregateUnit), prefix) == Head(aggregateUnit)
  {
    if Given(aggregateUnit) {
      assert RangeStart.key[0] == 'r';
      assert !(prefix <= RangeStart.key);
    }
  }

  /** Renaming works column by column, so it distributes over
      concatenation. */
  lemma RenameAppend(a: seq<Column>, b: seq<Column>, prefix: string)
    ensures Rename(a + b, prefix) == Rename(a, prefix) + Rename(b, prefix)
  {
    assert forall i :: 0 <= i < |a| + |b| ==>
      Rename(a + b, prefix)[i] == (Rename(a, prefix) + Rename(b, prefix))[i];
  }

  /** The renamed columns are keyed by the fields, after `range_start` when
      it is there. */
  lemma HeadFieldsDistinct(aggregateUnit: Option<string>, prefix: string, fields: seq<string>)
    requires NoDuplicates(["range_start"] + fields)
    ensures NoDuplicates(Keys(Head(aggregateUnit) + RenamedColumns(prefix, fields)))
  {
    var ks := Keys(Head(aggregateUnit) + RenamedColumns(prefix, fields));
    if Given(aggregateUnit) {
      assert ks == ["range_start"] + fields;
    } else {
      assert ks == fields;
      assert forall k :: 0 <= k < |fields| ==> fields[k] == (["range_start"] + fields)[k + 1];
    }
  }

  /** Keys that differ in length or in their first character are
      distinct. */
  lemma DistinctByLengthOrHead(ks: seq<string>)
    requires forall i :: 0 <= i < |ks| ==> ks[i] != []
    requires forall i, j :: 0 <= i < j < |ks| ==> |ks[i]| != |ks[j]| || ks[i][0] != ks[j][0]
    ensures NoDuplicates(ks)
  {
  }

  /** `range_start` and the mean fields are distinct names. */
  lemma MeanFieldsDistinct()
    ensures NoDuplicates(["range_start"] + MeanFields)
  {
    var ks := ["range_start"] + MeanFields;
    assert |ks[0]| == 11 && ks[0][0] == 'r';
    assert |ks[1]| == 16 && ks[1][0] == 'a';
    assert |ks[2]| == 15 && ks[2][0] == 'e';
    assert |ks[3]| == 18 && ks[3][0] == 'e';
    assert |ks[4]| == 17 && ks[4][0] == 's';
    assert |ks[5]| == 20 && ks[5][0] == 's';
    assert |ks[6]| == 19 && ks[6][0] == 's';
    assert |ks[7]| == 18 && ks[7][0] == 's';
    DistinctByLengthOrHead(ks);
  }

  /** `range_start` and the total fields are distinct names. */
  lemma TotalFieldsDistinct()
    ensures NoDuplicates(["range_start"] + TotalFields)
  {
    var ks := ["range_start"] + TotalFields;
    assert |ks[0]| == 11 && ks[0][0] == 'r';
    assert |ks[1]| == 27 && ks[1][0] == 'b';
    assert |ks[2]| == 15 && ks[2][0] == 'e';
    assert |ks[3]| == 16 && ks[3][0] == 'e';
    assert |ks[4]| == 14 && ks[4][0] == 'i';
    assert |ks[5]| == 22 && ks[5][0] == 'o';
    assert |ks[6]| == 24 && ks[6][0] == 's';
    assert |ks[7]| == 15 && ks[7][0] == 's';
    DistinctByLengthOrHead(ks);
  }

  /** How a table comes out when the filter keeps `head` and `selected`,
      renaming leaves `head` alone and turns `selected` into `expected`, and
      the resulting keys are distinct. */
  lemma SubtableFromParts(cols: seq<Column>, word: string, prefix: string, head: seq<Column>,
                          selected: seq<Column>, expected: seq<Column>)
    requires Select(cols, TableFilter(word)) == head + selected
    requires Rename(head, prefix) == head
    requires Rename(selected, prefix) == expected
    requires NoDuplicates(Keys(head + expected))
    ensures Subtable(cols, word, prefix) == head + expected
  {
    RenameAppend(head, selected, prefix);
    FromEntriesDistinct(head + expected);
  }

  /** The mean table shows `range_start` (when there is an aggregate unit)
      and then, in table order, the seven mean fields under their names
      without `mean_`, each still reading its `mean_` field of the row. */
  lemma MeanColumnsOfTable(aggregateUnit: Option<string>)
    ensures MeanColumns(ColumnsFor(aggregateUnit)) == Head(aggregateUnit) + RenamedColumns("mean_", MeanFields)
  {
    SelectMeanOfTable(aggregateUnit);
    RenameHead(aggregateUnit, "mean_");
    RenameMetricColumns("mean_", MeanFields);
    MeanFieldsDistinct();
    HeadFieldsDistinct(aggregateUnit, "mean_", MeanFields);
    SubtableFromParts(ColumnsFor(aggregateUnit), "mean", "mean_", Head(aggregateUnit), MeanMetrics,
                      RenamedColumns("mean_", MeanFields));
  }

  /** The total table shows `range_start` (when there is an aggregate unit)
      and then, in table order, the seven total fields under their names
      without `total_`, each still reading its `total_` field of the row. */
  lemma TotalColumnsOfTable(aggregateUnit: Option<string>)
    ensures TotalColumns(ColumnsFor(aggregateUnit)) == Head(aggregateUnit) + RenamedColumns("total_", TotalFields)
  {
    SelectTotalOfTable(aggregateUnit);
    RenameHead(aggregateUnit, "total_");
    RenameMetricColumns("total_", TotalFields);
    TotalFieldsDistinct();
    HeadFieldsDistinct(aggregateUnit, "total_", TotalFields);
    SubtableFromParts(ColumnsFor(aggregateUnit), "total", "total_", Head(aggregateUnit), TotalMetrics,
                      RenamedColumns("total_", TotalFields));
  }
}
