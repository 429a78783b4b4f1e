/** Searching logged models by metrics: one prefilter and one group pass that serve every filter
    and every sort expression at once. */
module LoggedModelMetrics {
  import opened Wrappers

  /** A row of a model's metric history; values are numbers. */
  datatype Row = Row(
    id: nat,
    runId: nat,
    k: string,
    v: real,
    timestamp: int,
    step: int,
    datasetName: Option<string>,
    datasetDigest: Option<string>)

  datatype Comparator = Eq | Ne | Lt | Le | Gt | Ge

  datatype Filter = Filter(key: string, comparator: Comparator, value: real)

  /** A dataset of the request; the digest may be left out. */
  datatype Dataset = Named(name: string) | Exact(name: string, digest: Option<string>)

  datatype Order =
    | ByAttribute(key: string)
    | ByMetric(key: string, datasetName: Option<string>, datasetDigest: Option<string>)

  function Compare(c: Comparator, a: real, b: real): bool {
    match c
    case Eq => a == b
    case Ne => a != b
    case Lt => a < b
    case Le => a <= b
    case Gt => a > b
    case Ge => a >= b
  }

  // ---------- the query language the stages use ----------

  datatype Condition =
    | KeyIs(k: string)
    | NameIs(name: Option<string>)
    | DigestIs(digest: Option<string>)
    | ValueIs(comparator: Comparator, value: real)
    | IsNumber
    | All(conditions: seq<Condition>)
    | AnyOf(conditions: seq<Condition>)

  predicate Holds(c: Condition, r: Row) {
    match c
    case KeyIs(k) => r.k == k
    case NameIs(n) => r.datasetName == n
    case DigestIs(d) => r.datasetDigest == d
    case ValueIs(op, x) => Compare(op, r.v, x)
    case IsNumber => true
    case All(cs) => forall i :: 0 <= i < |cs| ==> Holds(cs[i], r)
    case AnyOf(cs) => exists i :: 0 <= i < |cs| && Holds(cs[i], r)
  }

  /** The lookup's pipeline: rows matching any candidate, grouped into one summary whose flags are
      `$max` of a condition and whose sort values are `$top` within a scope. */
  datatype Plan = Plan(
    candidates: seq<Condition>,
    flags: seq<Condition>,
    datasetFlag: Option<Condition>,
    scopes: seq<Option<Condition>>)

  datatype Summary = Summary(flags: seq<bool>, datasetMatch: bool, values: seq<Option<real>>)

  // ---------- building the stages ----------

  function DatasetCondition(d: Dataset): Condition {
    match d
    case Named(n) => All([NameIs(Some(n))])
    case Exact(n, digest) => All([NameIs(Some(n)), DigestIs(digest)])
  }

  function DatasetConditions(datasets: seq<Dataset>): (r: seq<Condition>)
    ensures |r| == |datasets|
    ensures forall i :: 0 <= i < |r| ==> r[i] == DatasetCondition(datasets[i])
  {
    seq(|datasets|, i requires 0 <= i < |datasets| => DatasetCondition(datasets[i]))
  }

  function Scoped(cs: seq<Condition>, datasets: seq<Dataset>): Condition {
    if datasets == [] then All(cs) else All(cs + [AnyOf(DatasetConditions(datasets))])
  }

  function Candidate(f: Filter, datasets: seq<Dataset>): Condition {
    Scoped([KeyIs(f.key), ValueIs(f.comparator, f.value)], datasets)
  }

  function Flag(f: Filter, datasets: seq<Dataset>): Condition {
    Scoped([KeyIs(f.key), IsNumber, ValueIs(f.comparator, f.value)], datasets)
  }

  predicate Given(s: Option<string>) {
    s.Some? && s.value != ""
  }

  /** The scope of a metric order; empty dataset fields are not part of it. */
  function Scope(o: Order): Option<Condition> {
    match o
    case ByAttribute(_) => None
    case ByMetric(k, name, digest) =>
      var fields := [KeyIs(k)];
      var fields := if Given(name) then fields + [NameIs(name)] else fields;
      Some(All(if Given(digest) then fields + [DigestIs(digest)] else fields))
  }

  function ScopeCandidates(orders: seq<Order>): seq<Condition> {
    if orders == [] then []
    else
      var init, last := ScopeCandidates(orders[..|orders| - 1]), Scope(orders[|orders| - 1]);
      if last.Some? then init + [last.value] else init
  }

  /** _metric_stages as a function; no candidates means no stages. */
  function MetricPlan(filters: seq<Filter>, datasets: seq<Dataset>, orders: seq<Order>): Plan {
    var datasetOnly := datasets != [] && filters == [];
    var anyDataset := AnyOf(DatasetConditions(datasets));
    Plan(
      seq(|filters|, i requires 0 <= i < |filters| => Candidate(filters[i], datasets))
      + (if datasetOnly then [anyDataset] else [])
      + ScopeCandidates(orders),
      seq(|filters|, i requires 0 <= i < |filters| => Flag(filters[i], datasets)),
      if datasetOnly then Some(anyDataset) else None,
      seq(|orders|, i requires 0 <= i < |orders| => Scope(orders[i])))
  }

  /** The loop over the orders: the scope of each, and their candidates. */
  method OrderScopes(orders: seq<Order>) returns (scopes: seq<Option<Condition>>, candidates: seq<Condition>)
    ensures |scopes| == |orders| && forall j :: 0 <= j < |orders| ==> scopes[j] == Scope(orders[j])
    ensures candidates == ScopeCandidates(orders)
  {
    scopes, candidates := [], [];
    for i := 0 to |orders|
      invariant candidates == ScopeCandidates(orders[..i])
      invariant |scopes| == i && forall j :: 0 <= j < i ==> scopes[j] == Scope(orders[j])
    {
      assert orders[..i + 1][..i] == orders[..i];
      var scope: Option<Condition> := None;
      match orders[i] {
        case ByAttribute(_) =>
        case ByMetric(k, name, digest) =>
          var fields := [KeyIs(k)];
          if Given(name) { fields := fields + [NameIs(name)]; }
          if Given(digest) { fields := fields + [DigestIs(digest)]; }
          scope := Some(All(fields));
          candidates := candidates + [All(fields)];
      }
      assert scope == Scope(orders[i]);
      scopes := scopes + [scope];
    }
    assert orders[..|orders|] == orders;
  }

  /** _metric_stages, loop by loop. */
  method MetricStages(filters: seq<Filter>, datasets: seq<Dataset>, orders: seq<Order>) returns (plan: Plan)
    ensures plan == MetricPlan(filters, datasets, orders)
  {
    var conditions := DatasetConditions(datasets);
    var candidates: seq<Condition>, flags: seq<Condition>, datasetFlag := [], [], None;
    for i := 0 to |filters|
      invariant |candidates| == |flags| == i
      invariant forall j :: 0 <= j < i ==>
              candidates[j] == Candidate(filters[j], datasets) && flags[j] == Flag(filters[j], datasets)
    {
      var f := filters[i];
      var m := [KeyIs(f.key), ValueIs(f.comparator, f.value)];
      var c := [KeyIs(f.key), IsNumber, ValueIs(f.comparator, f.value)];
      if |datasets| > 0 {
        m := m + [AnyOf(conditions)];
        c := c + [AnyOf(conditions)];
      }
      candidates := candidates + [All(m)];
      flags := flags + [All(c)];
    }
    if |datasets| > 0 && |filters| == 0 {
      candidates := candidates + [AnyOf(conditions)];
      datasetFlag := Some(AnyOf(conditions));
    }
    var scopes, scopeCandidates := OrderScopes(orders);
    candidates := candidates + scopeCandidates;
    plan := Plan(candidates, flags, datasetFlag, scopes);
  }

  // ---------- running the stages ----------

  ghost predicate DistinctRows(rows: set<Row>) {
    forall a, b | a in rows && b in rows && a.id == b.id :: a == b
  }

  /** Latest first: timestamp, then step, then run and id as tie breakers. */
  predicate Later(a: Row, b: Row) {
    || a.timestamp > b.timestamp
    || (a.timestamp == b.timestamp && a.step > b.step)
    || (a.timestamp == b.timestamp && a.step == b.step && a.runId < b.runId)
    || (a.timestamp == b.timestamp && a.step == b.step && a.runId == b.runId && a.id < b.id)
  }

  /** The `$top` order: rows of the scope first, then the latest. */
  predicate SortsFirst(scope: Condition, a: Row, b: Row) {
    if Holds(scope, a) != Holds(scope, b) then Holds(scope, a) else Later(a, b)
  }

  predicate IsTop(scope: Condition, r: Row, rows: set<Row>) {
    r in rows && forall x <- rows :: x == r || SortsFirst(scope, r, x)
  }

  lemma SortsFirstIsTotal(scope: Condition, a: Row, b: Row, c: Row)
    ensures a.id != b.id ==> SortsFirst(scope, a, b) || SortsFirst(scope, b, a)
    ensures SortsFirst(scope, a, b) && SortsFirst(scope, b, c) ==> SortsFirst(scope, a, c)
  {
    var x, y, z := Holds(scope, a), Holds(scope, b), Holds(scope, c);
  }

  lemma {:induction false} TopExists(scope: Condition, rows: set<Row>)
    requires rows != {} && DistinctRows(rows)
    ensures exists r :: IsTop(scope, r, rows)
    decreases |rows|
  {
    var x :| x in rows;
    var rest := rows - {x};
    assert rows == rest + {x};
    if rest == {} {
      assert IsTop(scope, x, rows);
    } else {
      TopExists(scope, rest);
      var r :| IsTop(scope, r, rest);
      SortsFirstIsTotal(scope, x, r, r);
      if SortsFirst(scope, x, r) {
        forall y | y in rows ensures y == x || SortsFirst(scope, x, y) {
          SortsFirstIsTotal(scope, x, r, y);
        }
        assert IsTop(scope, x, rows);
      } else {
        assert IsTop(scope, r, rows);
      }
    }
  }

  /** `{$top: {output: {$cond: [match, v, null]}}}` */
  ghost function TopValue(scope: Condition, rows: set<Row>): Option<real>
    requires rows != {} && DistinctRows(rows)
  {
    TopExists(scope, rows);
    var r :| IsTop(scope, r, rows);
    if Holds(scope, r) then Some(r.v) else None
  }

  ghost function Prefiltered(plan: Plan, rows: set<Row>): set<Row> {
    set r <- rows | Holds(AnyOf(plan.candidates), r)
  }

  /** The `$lookup` result: a summary of the prefiltered rows, or nothing if there are none. */
  ghost function Lookup(plan: Plan, rows: set<Row>): Option<Summary>
    requires DistinctRows(rows)
  {
    var group := Prefiltered(plan, rows);
    if group == {} then None
    else Some(Summary(
                seq(|plan.flags|, i requires 0 <= i < |plan.flags| => exists r <- group :: Holds(plan.flags[i], r)),
                plan.datasetFlag.Some? && exists r <- group :: Holds(plan.datasetFlag.value, r),
                seq(|plan.scopes|, i requires 0 <= i < |plan.scopes| =>
                  if plan.scopes[i].None? then None else TopValue(plan.scopes[i].value, group))))
  }

  ghost predicate FlagSet(plan: Plan, rows: set<Row>, i: nat)
    requires DistinctRows(rows) && i < |plan.flags|
  {
    var summary := Lookup(plan, rows);
    summary.Some? && summary.value.flags[i]
  }

  /** The `$match` on the required flags; without any, every model passes. */
  ghost predicate Passes(plan: Plan, rows: set<Row>)
    requires DistinctRows(rows)
  {
    var summary := Lookup(plan, rows);
    && (forall i :: 0 <= i < |plan.flags| ==> FlagSet(plan, rows, i))
    && (plan.datasetFlag.Some? ==> summary.Some? && summary.value.datasetMatch)
  }

  /** The sort value of order `j`: missing without a summary. */
  ghost function SortValue(plan: Plan, rows: set<Row>, j: nat): Option<real>
    requires DistinctRows(rows) && j < |plan.scopes|
  {
    var summary := Lookup(plan, rows);
    if summary.None? then None else summary.value.values[j]
  }

  // ---------- what the search means ----------

  predicate OfDataset(r: Row, d: Dataset) {
    r.datasetName == Some(d.name) && (d.Exact? ==> r.datasetDigest == d.digest)
  }

  predicate InScope(r: Row, datasets: seq<Dataset>) {
    datasets == [] || exists i :: 0 <= i < |datasets| && OfDataset(r, datasets[i])
  }

  /** A value as the filter asks for it. */
  predicate Asked(f: Filter, v: real) {
    || (f.comparator == Eq && v == f.value)
    || (f.comparator == Ne && v != f.value)
    || (f.comparator == Lt && v < f.value)
    || (f.comparator == Le && v <= f.value)
    || (f.comparator == Gt && f.value < v)
    || (f.comparator == Ge && f.value <= v)
  }

  /** Some row of the requested datasets satisfies the filter. */
  ghost predicate FilterHolds(rows: set<Row>, f: Filter, datasets: seq<Dataset>) {
    exists r <- rows :: r.k == f.key && Asked(f, r.v) && InScope(r, datasets)
  }

  /** A row an order is about, whatever the filters and the requested datasets are; an empty dataset field
      of the order does not count. */
  predicate OfOrder(r: Row, o: Order) {
    && o.ByMetric? && r.k == o.key
    && (o.datasetName.None? || o.datasetName.value == "" || r.datasetName == o.datasetName)
    && (o.datasetDigest.None? || o.datasetDigest.value == "" || r.datasetDigest == o.datasetDigest)
  }

  /** The latest row of an order: no other has a larger timestamp, at that timestamp none has a larger
      step, at that step none a smaller run id, and of that run none a smaller id. */
  predicate IsLatest(r: Row, rows: set<Row>, o: Order) {
    && r in rows && OfOrder(r, o)
    && (forall x <- rows :: OfOrder(x, o) ==> x.timestamp <= r.timestamp)
    && (forall x <- rows :: OfOrder(x, o) && x.timestamp == r.timestamp ==> x.step <= r.step)
    && (forall x <- rows :: OfOrder(x, o) && x.timestamp == r.timestamp && x.step == r.step ==> r.runId <= x.runId)
    && (forall x <- rows :: OfOrder(x, o) && x.timestamp == r.timestamp && x.step == r.step && x.runId == r.runId ==>
          r.id <= x.id)
  }

  // ---------- the fused stages mean the search ----------

  lemma DatasetsHold(datasets: seq<Dataset>, r: Row)
    ensures Holds(AnyOf(DatasetConditions(datasets)), r) <==>
            exists i :: 0 <= i < |datasets| && OfDataset(r, datasets[i])
  {
    forall i | 0 <= i < |datasets| ensures Holds(DatasetConditions(datasets)[i], r) <==> OfDataset(r, datasets[i]) {
      var c := DatasetCondition(datasets[i]);
      match datasets[i]
      case Named(n) => assert Holds(c, r) <==> Holds(c.conditions[0], r);
      case Exact(n, digest) => assert Holds(c, r) <==> Holds(c.conditions[0], r) && Holds(c.conditions[1], r);
    }
  }

  lemma FilterConditions(f: Filter, datasets: seq<Dataset>, r: Row)
    ensures Holds(Candidate(f, datasets), r) <==>
            r.k == f.key && Asked(f, r.v) && InScope(r, datasets)
    ensures Holds(Flag(f, datasets), r) <==> Holds(Candidate(f, datasets), r)
  {
    DatasetsHold(datasets, r);
    var c, g := Candidate(f, datasets).conditions, Flag(f, datasets).conditions;
    assert Holds(c[0], r) == (r.k == f.key) && Holds(c[1], r) == Asked(f, r.v);
    assert Holds(g[0], r) == (r.k == f.key) && Holds(g[2], r) == Asked(f, r.v) && Holds(g[1], r);
    if datasets != [] {
      assert c[2] == AnyOf(DatasetConditions(datasets)) && g[3] == c[2];
    }
  }

  lemma ScopeHolds(o: Order, r: Row)
    requires o.ByMetric?
    ensures Holds(Scope(o).value, r) <==> OfOrder(r, o)
  {
    var cs := Scope(o).value.conditions;
    assert Holds(cs[0], r) == (r.k == o.key);
    if Given(o.datasetName) {
      assert Holds(cs[1], r) == (r.datasetName == o.datasetName);
      if Given(o.datasetDigest) { assert Holds(cs[2], r) == (r.datasetDigest == o.datasetDigest); }
    } else if Given(o.datasetDigest) {
      assert Holds(cs[1], r) == (r.datasetDigest == o.datasetDigest);
    }
  }

  lemma {:induction false} ScopesAreCandidates(orders: seq<Order>, j: nat)
    requires j < |orders| && orders[j].ByMetric?
    ensures Scope(orders[j]).value in ScopeCandidates(orders)
    decreases |orders|
  {
    if j < |orders| - 1 {
      ScopesAreCandidates(orders[..|orders| - 1], j);
    }
  }

  /** The prefilter keeps every row any filter or order is about. */
  lemma PrefilterKeeps(filters: seq<Filter>, datasets: seq<Dataset>, orders: seq<Order>, r: Row)
    ensures var c := AnyOf(MetricPlan(filters, datasets, orders).candidates);
            && (forall i :: 0 <= i < |filters| && Holds(Candidate(filters[i], datasets), r) ==> Holds(c, r))
            && (forall j :: 0 <= j < |orders| && OfOrder(r, orders[j]) ==> Holds(c, r))
            && (filters == [] && datasets != [] && InScope(r, datasets) ==> Holds(c, r))
  {
    var cs := MetricPlan(filters, datasets, orders).candidates;
    forall i | 0 <= i < |filters| && Holds(Candidate(filters[i], datasets), r) ensures Holds(AnyOf(cs), r) {
      assert cs[i] == Candidate(filters[i], datasets);
    }
    forall j | 0 <= j < |orders| && OfOrder(r, orders[j]) ensures Holds(AnyOf(cs), r) {
      ScopeHolds(orders[j], r);
      ScopesAreCandidates(orders, j);
      assert Scope(orders[j]).value in cs;
    }
    if filters == [] && datasets != [] && InScope(r, datasets) {
      DatasetsHold(datasets, r);
      assert cs[0] == AnyOf(DatasetConditions(datasets));
    }
  }

  lemma FlagIsExact(filters: seq<Filter>, datasets: seq<Dataset>, orders: seq<Order>, rows: set<Row>, i: nat)
    requires DistinctRows(rows) && i < |filters|
    ensures var plan := MetricPlan(filters, datasets, orders);
            FlagSet(plan, rows, i) <==> FilterHolds(rows, filters[i], datasets)
  {
    var plan := MetricPlan(filters, datasets, orders);
    var group := Prefiltered(plan, rows);
    var f := filters[i];
    forall r | r in rows
      ensures r in group && Holds(plan.flags[i], r) <==>
              r.k == f.key && Asked(f, r.v) && InScope(r, datasets)
    {
      FilterConditions(f, datasets, r);
      PrefilterKeeps(filters, datasets, orders, r);
    }
    if FilterHolds(rows, f, datasets) {
      var r :| r in rows && r.k == f.key && Asked(f, r.v) && InScope(r, datasets);
      assert r in group && Holds(plan.flags[i], r);
    }
  }

  lemma DatasetFlagIsExact(filters: seq<Filter>, datasets: seq<Dataset>, orders: seq<Order>, rows: set<Row>)
    requires DistinctRows(rows) && filters == [] && datasets != []
    ensures var plan := MetricPlan(filters, datasets, orders);
            (Lookup(plan, rows).Some? && Lookup(plan, rows).value.datasetMatch) <==>
                exists r <- rows :: InScope(r, datasets)
  {
    var plan := MetricPlan(filters, datasets, orders);
    var group := Prefiltered(plan, rows);
    forall r | r in rows ensures InScope(r, datasets) <==> r in group && Holds(plan.datasetFlag.value, r) {
      DatasetsHold(datasets, r);
      PrefilterKeeps(filters, datasets, orders, r);
    }
    if r :| r in rows && InScope(r, datasets) {
      assert r in group && Holds(plan.datasetFlag.value, r);
    }
  }

  /** A model passes the fused stages exactly if every filter holds on its own, possibly through
      different rows, and, with datasets but no filter, it has a row in one of the datasets. */
  lemma FusedFiltersAreExact(filters: seq<Filter>, datasets: seq<Dataset>, orders: seq<Order>, rows: set<Row>)
    requires DistinctRows(rows)
    ensures Passes(MetricPlan(filters, datasets, orders), rows) <==>
            && (forall i :: 0 <= i < |filters| ==> FilterHolds(rows, filters[i], datasets))
            && (filters == [] && datasets != [] ==> exists r <- rows :: InScope(r, datasets))
  {
    var plan := MetricPlan(filters, datasets, orders);
    forall i | 0 <= i < |filters|
      ensures FlagSet(plan, rows, i) <==> FilterHolds(rows, filters[i], datasets)
    {
      FlagIsExact(filters, datasets, orders, rows, i);
    }
    if filters == [] && datasets != [] {
      DatasetFlagIsExact(filters, datasets, orders, rows);
    }
    assert plan.datasetFlag.Some? <==> filters == [] && datasets != [];
  }

  /** The top row of a group that has all rows of a scope is the scope's latest, if the scope has any. */
  lemma TopIsLatest(scope: Condition, o: Order, rows: set<Row>, group: set<Row>)
    requires group != {} && group <= rows && DistinctRows(rows) && DistinctRows(group)
    requires forall r :: Holds(scope, r) <==> OfOrder(r, o)
    requires forall r <- rows :: OfOrder(r, o) ==> r in group
    ensures TopValue(scope, group).None? <==> forall r <- rows :: !OfOrder(r, o)
    ensures forall r :: IsLatest(r, rows, o) ==> TopValue(scope, group) == Some(r.v)
    ensures TopValue(scope, group).Some? ==> exists r :: IsLatest(r, rows, o)
  {
    TopExists(scope, group);
    var top :| IsTop(scope, top, group) &&
               TopValue(scope, group) == (if Holds(scope, top) then Some(top.v) else None);
    if Holds(scope, top) {
      assert IsLatest(top, rows, o);
      forall r | IsLatest(r, rows, o) ensures r == top { LatestIsUnique(r, top, rows, o); }
    }
  }

  lemma LatestIsUnique(a: Row, b: Row, rows: set<Row>, o: Order)
    requires DistinctRows(rows) && IsLatest(a, rows, o) && IsLatest(b, rows, o)
    ensures a == b
  {
    assert b.timestamp <= a.timestamp && a.timestamp <= b.timestamp;
    assert b.step <= a.step && a.step <= b.step;
    assert b.runId <= a.runId && a.runId <= b.runId;
    assert b.id <= a.id && a.id <= b.id;
  }

  /** The sort value of an order is the value of the latest row of its own scope, or missing if
      there is none; rows fetched for filters and other orders never show through. */
  lemma FusedSortValuesAreExact(filters: seq<Filter>, datasets: seq<Dataset>, orders: seq<Order>, rows: set<Row>,
      j: nat)
    requires DistinctRows(rows) && j < |orders|
    ensures var value := SortValue(MetricPlan(filters, datasets, orders), rows, j);
            && (value.None? <==> forall r <- rows :: !OfOrder(r, orders[j]))
            && (forall r :: IsLatest(r, rows, orders[j]) ==> value == Some(r.v))
            && (value.Some? ==> exists r :: IsLatest(r, rows, orders[j]))
  {
    var plan := MetricPlan(filters, datasets, orders);
    var group := Prefiltered(plan, rows);
    forall r | r in rows && OfOrder(r, orders[j]) ensures r in group {
      PrefilterKeeps(filters, datasets, orders, r);
    }
    if orders[j].ByMetric? {
      var scope := Scope(orders[j]).value;
      forall r ensures Holds(scope, r) <==> OfOrder(r, orders[j]) {
        ScopeHolds(orders[j], r);
      }
      if group != {} { TopIsLatest(scope, orders[j], rows, group); }
    }
  }
}
