/** Sort keys generated for run, logged-model and trace searches, read under MongoDB's own order of
    values, in which missing values come first. */
module SearchOrder {
  import opened Wrappers

  /** A BSON value; a missing field reads as null. */
  datatype Value = Null | NaN | Number(n: real) | Text(s: string) | Flag(b: bool)

  datatype Field =
    | Id
    | Attribute(key: string)
    | RunMetric(key: string)
    | ModelMetric(key: string, dataset: string, digest: string)
    | Embedded(key: string)

  datatype Doc = Doc(id: string, values: map<Field, Value>)

  /** One `order_by` entry. */
  datatype Order = Order(field: Field, ascending: bool)

  function Read(d: Doc, f: Field): Value {
    if f.Id? then Text(d.id) else if f in d.values then d.values[f] else Null
  }

  // ---------- MongoDB's order of values ----------

  function CompareText(s: string, t: string): int {
    if s == t then 0
    else if s == [] then -1
    else if t == [] then 1
    else if s[0] != t[0] then (if s[0] < t[0] then -1 else 1)
    else CompareText(s[1..], t[1..])
  }

  function TypeOrder(v: Value): nat {
    match v
    case Null => 0
    case NaN => 1
    case Number(_) => 2
    case Text(_) => 3
    case Flag(_) => 4
  }

  function Compare(x: Value, y: Value): int {
    if TypeOrder(x) != TypeOrder(y) then (if TypeOrder(x) < TypeOrder(y) then -1 else 1)
    else if x.Number? then (if x.n < y.n then -1 else if x.n > y.n then 1 else 0)
    else if x.Text? then CompareText(x.s, y.s)
    else if x.Flag? then (if x.b == y.b then 0 else if y.b then -1 else 1)
    else 0
  }

  lemma {:induction false} CompareTextLaws(s: string, t: string, u: string)
    ensures CompareText(s, t) == -CompareText(t, s)
    ensures CompareText(s, t) == 0 <==> s == t
    ensures CompareText(s, t) <= 0 && CompareText(t, u) <= 0 ==> CompareText(s, u) <= 0
    decreases |s|
  {
    if s != [] && t != [] {
      assert s == [s[0]] + s[1..] && t == [t[0]] + t[1..];
      CompareTextLaws(s[1..], t[1..], if u == [] then [] else u[1..]);
      if u != [] { assert u == [u[0]] + u[1..]; }
    }
  }

  lemma CompareLaws(x: Value, y: Value, z: Value)
    ensures Compare(x, y) == -Compare(y, x)
    ensures Compare(x, y) == 0 <==> x == y
    ensures Compare(x, y) <= 0 && Compare(y, z) <= 0 ==> Compare(x, z) <= 0
  {
    if x.Text? && y.Text? {
      CompareTextLaws(x.s, y.s, if z.Text? then z.s else "");
    }
  }

  // ---------- what the caller asked for ----------

  /** The texts agree before `i`, where the first one ends or has the smaller character. */
  predicate SmallerAt(s: string, t: string, i: nat) {
    && i <= |s| && i < |t| && s[..i] == t[..i]
    && (i == |s| || s[i] < t[i])
  }

  /** Texts in dictionary order: a proper prefix first, otherwise the first different character decides. */
  ghost predicate TextBefore(s: string, t: string) {
    exists i :: SmallerAt(s, t, i)
  }

  /** Ascending order of values: missing ones, NaN, numbers, texts, and false before true. */
  ghost predicate ValueBefore(x: Value, y: Value) {
    match x
    case Null => !y.Null?
    case NaN => y.Number? || y.Text? || y.Flag?
    case Number(n) => (y.Number? && n < y.n) || y.Text? || y.Flag?
    case Text(s) => (y.Text? && TextBefore(s, y.s)) || y.Flag?
    case Flag(b) => y.Flag? && !b && y.b
  }

  /** The requested comparison of two values: a missing value is last in both directions, and of a
      run's metrics NaN is last but for the missing ones. */
  ghost function Wanted(o: Order, x: Value, y: Value): int {
    if x == y then 0
    else if x == Null then 1
    else if y == Null then -1
    else if o.field.RunMetric? && x == NaN then 1
    else if o.field.RunMetric? && y == NaN then -1
    else if o.ascending then (if ValueBefore(x, y) then -1 else 1)
    else (if ValueBefore(y, x) then -1 else 1)
  }

  lemma SameStart(s: string, t: string, i: nat)
    requires SmallerAt(s, t, i) && i > 0
    ensures s[0] == t[0] && SmallerAt(s[1..], t[1..], i - 1)
  {
    assert s[..i][0] == s[0] && t[..i][0] == t[0];
    assert s[1..][..i - 1] == s[..i][1..] && t[1..][..i - 1] == t[..i][1..];
  }

  lemma SameStartAgain(s: string, t: string, i: nat)
    requires s != [] && t != [] && s[0] == t[0] && SmallerAt(s[1..], t[1..], i)
    ensures SmallerAt(s, t, i + 1)
  {
    assert s[..i + 1] == [s[0]] + s[1..][..i] && t[..i + 1] == [t[0]] + t[1..][..i];
  }

  lemma {:induction false} CompareTextMeaning(s: string, t: string)
    ensures CompareText(s, t) < 0 <==> TextBefore(s, t)
    ensures -1 <= CompareText(s, t) <= 1
    decreases |s|
  {
    if s == [] && t != [] {
      assert SmallerAt(s, t, 0);
    } else if s != t && t != [] {
      if s[0] == t[0] {
        CompareTextMeaning(s[1..], t[1..]);
        if i :| SmallerAt(s[1..], t[1..], i) { SameStartAgain(s, t, i); }
      } else if s[0] < t[0] {
        assert SmallerAt(s, t, 0);
      }
      if i :| SmallerAt(s, t, i) {
        if i > 0 { SameStart(s, t, i); }
      }
    }
  }

  /** The server's comparison is the ascending order of values. */
  lemma CompareMeaning(x: Value, y: Value)
    ensures Compare(x, y) < 0 <==> ValueBefore(x, y)
    ensures -1 <= Compare(x, y) <= 1
  {
    if x.Text? && y.Text? { CompareTextMeaning(x.s, y.s); }
  }

  lemma WantedIsCompared(o: Order, x: Value, y: Value)
    requires x != Null && y != Null && (o.field.RunMetric? ==> x != NaN && y != NaN)
    ensures Wanted(o, x, y) == if o.ascending then Compare(x, y) else Compare(y, x)
  {
    CompareLaws(x, y, Null);
    CompareMeaning(x, y);
    CompareMeaning(y, x);
  }

  /** Lexicographic comparison of two documents by a list of orders, the first one first. */
  ghost function Requested(orders: seq<Order>, a: Doc, b: Doc): int {
    if orders == [] then 0
    else
      var c := Requested(orders[..|orders| - 1], a, b);
      var o := orders[|orders| - 1];
      if c != 0 then c else Wanted(o, Read(a, o.field), Read(b, o.field))
  }

  predicate Observed(orders: seq<Order>, f: Field) {
    exists i :: 0 <= i < |orders| && orders[i].field == f
  }

  predicate Distinct(orders: seq<Order>) {
    forall i, j :: 0 <= i < j < |orders| ==> orders[i].field != orders[j].field
  }

  lemma WantedLaws(o: Order, x: Value, y: Value, z: Value)
    ensures Wanted(o, x, y) == -Wanted(o, y, x)
    ensures Wanted(o, x, y) == 0 <==> x == y
    ensures Wanted(o, x, y) <= 0 && Wanted(o, y, z) <= 0 ==> Wanted(o, x, z) <= 0
  {
    CompareLaws(x, y, z);
    CompareLaws(z, y, x);
    CompareLaws(x, z, y);
    WantedIsComparedIfPlain(o, x, y);
    WantedIsComparedIfPlain(o, y, x);
    WantedIsComparedIfPlain(o, y, z);
    WantedIsComparedIfPlain(o, x, z);
  }

  lemma WantedIsComparedIfPlain(o: Order, x: Value, y: Value)
    ensures x != Null && y != Null && (o.field.RunMetric? ==> x != NaN && y != NaN) ==>
              Wanted(o, x, y) == if o.ascending then Compare(x, y) else Compare(y, x)
  {
    if x != Null && y != Null && (o.field.RunMetric? ==> x != NaN && y != NaN) { WantedIsCompared(o, x, y); }
  }

  lemma {:induction false} RequestedLaws(orders: seq<Order>, a: Doc, b: Doc, c: Doc)
    ensures Requested(orders, a, b) == -Requested(orders, b, a)
    ensures Requested(orders, a, b) <= 0 && Requested(orders, b, c) <= 0 ==> Requested(orders, a, c) <= 0
  {
    if orders != [] {
      var init, o := orders[..|orders| - 1], orders[|orders| - 1];
      RequestedLaws(init, a, b, c);
      RequestedLaws(init, b, c, a);
      RequestedLaws(init, c, a, b);
      WantedLaws(o, Read(a, o.field), Read(b, o.field), Read(c, o.field));
      WantedLaws(o, Read(b, o.field), Read(c, o.field), Read(a, o.field));
    }
  }

  /** Documents that compare equal agree on every ordered field. */
  lemma {:induction false} TiesAgree(orders: seq<Order>, a: Doc, b: Doc)
    ensures Requested(orders, a, b) == 0 <==> forall i :: 0 <= i < |orders| ==>
            Read(a, orders[i].field) == Read(b, orders[i].field)
  {
    if orders != [] {
      var init, o := orders[..|orders| - 1], orders[|orders| - 1];
      TiesAgree(init, a, b);
      WantedLaws(o, Read(a, o.field), Read(b, o.field), Null);
      assert orders == init + [o];
    }
  }

  /** Ordering by a field a second time changes nothing. */
  lemma {:induction false} RepetitionIsHarmless(orders: seq<Order>, o: Order, rest: seq<Order>, a: Doc, b: Doc)
    requires Observed(orders, o.field)
    ensures Requested(orders + [o] + rest, a, b) == Requested(orders + rest, a, b)
  {
    if rest == [] {
      assert orders + [o] + rest == orders + [o] && orders + rest == orders;
      assert (orders + [o])[..|orders|] == orders;
      TiesAgree(orders, a, b);
      WantedLaws(o, Read(a, o.field), Read(b, o.field), Null);
    } else {
      var init, last := rest[..|rest| - 1], rest[|rest| - 1];
      assert (orders + [o] + rest)[..|orders| + |rest|] == orders + [o] + init;
      assert (orders + rest)[..|orders| + |rest| - 1] == orders + init;
      RepetitionIsHarmless(orders, o, init, a, b);
    }
  }

  // ---------- parsing ----------

  /** Drop every later repetition of a field. */
  function FirstMentions(orders: seq<Order>): (r: seq<Order>)
    ensures Distinct(r) && forall f :: Observed(r, f) <==> Observed(orders, f)
  {
    if orders == [] then []
    else
      var init, o := FirstMentions(orders[..|orders| - 1]), orders[|orders| - 1];
      assert orders == orders[..|orders| - 1] + [o];
      assert forall f :: Observed(orders, f) <==> Observed(orders[..|orders| - 1], f) || f == o.field by {
        assert orders[|orders| - 1] == o;
        forall f | Observed(orders[..|orders| - 1], f) ensures Observed(orders, f) {
          var i :| 0 <= i < |orders| - 1 && orders[..|orders| - 1][i].field == f;
          assert orders[i].field == f;
        }
        forall f | Observed(orders, f) && f != o.field ensures Observed(orders[..|orders| - 1], f) {
          var i :| 0 <= i < |orders| && orders[i].field == f;
          assert orders[..|orders| - 1][i].field == f;
        }
      }
      if Observed(init, o.field) then init
      else
        var r := init + [o];
        assert r[|init|] == o && forall i :: 0 <= i < |init| ==> r[i] == init[i];
        r
  }

  lemma ObservedAppend(a: seq<Order>, b: seq<Order>, f: Field)
    ensures Observed(a + b, f) <==> Observed(a, f) || Observed(b, f)
  {
    if Observed(a, f) {
      var i :| 0 <= i < |a| && a[i].field == f;
      assert (a + b)[i].field == f;
    }
    if Observed(b, f) {
      var i :| 0 <= i < |b| && b[i].field == f;
      assert (a + b)[|a| + i].field == f;
    }
  }

  const START_TIME := Attribute("start_time")
  const CREATION_TIMESTAMP := Attribute("creation_timestamp")
  const TIMESTAMP := Attribute("timestamp_ms")
  const EXPERIMENT_ID := Attribute("experiment_id")

  const RUN_TIES := [Order(START_TIME, false), Order(Id, true)]
  const MODEL_TIES := [Order(CREATION_TIMESTAMP, false), Order(Id, true)]
  const TRACE_TIES := [Order(TIMESTAMP, false), Order(Id, true)]

  /** Append the default orders whose field has not been asked for. */
  function WithTies(orders: seq<Order>, ties: seq<Order>): seq<Order>
    decreases |ties|
  {
    if ties == [] then orders
    else WithTies(if Observed(orders, ties[0].field) then orders else orders + [ties[0]], ties[1..])
  }

  lemma {:induction false} WithTiesIsAppend(orders: seq<Order>, ties: seq<Order>, a: Doc, b: Doc)
    requires Distinct(orders)
    ensures Distinct(WithTies(orders, ties))
    ensures forall t <- ties :: Observed(WithTies(orders, ties), t.field)
    ensures forall f :: Observed(orders, f) ==> Observed(WithTies(orders, ties), f)
    ensures Requested(WithTies(orders, ties), a, b) == Requested(orders + ties, a, b)
    decreases |ties|
  {
    if ties == [] {
      assert orders + ties == orders;
    } else {
      var t, rest := ties[0], ties[1..];
      assert ties == [t] + rest;
      assert orders + ties == orders + [t] + rest;
      var next := if Observed(orders, t.field) then orders else orders + [t];
      forall f ensures Observed(orders + [t], f) <==> Observed(orders, f) || f == t.field {
        ObservedAppend(orders, [t], f);
        assert [t][0] == t;
      }
      if Observed(orders, t.field) { RepetitionIsHarmless(orders, t, rest, a, b); }
      WithTiesIsAppend(next, rest, a, b);
      assert Observed(next, t.field);
    }
  }

  lemma {:induction false} FirstMentionsOrderAlike(orders: seq<Order>, rest: seq<Order>, a: Doc, b: Doc)
    ensures Requested(FirstMentions(orders) + rest, a, b) == Requested(orders + rest, a, b)
    decreases |orders|
  {
    if orders != [] {
      var init, o := orders[..|orders| - 1], orders[|orders| - 1];
      var kept := FirstMentions(init);
      assert orders + rest == init + ([o] + rest);
      FirstMentionsOrderAlike(init, [o] + rest, a, b);
      assert kept + ([o] + rest) == kept + [o] + rest;
      if Observed(kept, o.field) { RepetitionIsHarmless(kept, o, rest, a, b); }
    }
  }

  lemma {:induction false} DistinctIsKept(orders: seq<Order>)
    requires Distinct(orders)
    ensures FirstMentions(orders) == orders
  {
    if orders != [] {
      DistinctIsKept(orders[..|orders| - 1]);
      assert !Observed(orders[..|orders| - 1], orders[|orders| - 1].field);
    }
  }

  // ---------- generated sort keys ----------

  /** What a sort key reads: a stored value, or a rank computed from it. */
  datatype Expr =
    | Stored(f: Field)
    | MissingRank(f: Field)
    | MetricRank(f: Field)
    | MissingFlag(f: Field)

  datatype SortKey = SortKey(e: Expr, ascending: bool)

  function Eval(e: Expr, d: Doc): Value {
    var v := Read(d, e.f);
    match e
    case Stored(_) => v
    case MissingRank(_) => Number(if v == Null then 1.0 else 0.0)
    case MetricRank(_) => Number(if v == Null then 2.0 else if v == NaN then 1.0 else 0.0)
    case MissingFlag(_) => Flag(v == Null)
  }

  /** How one key compares two documents. */
  function Decides(k: SortKey, a: Doc, b: Doc): int {
    if k.ascending then Compare(Eval(k.e, a), Eval(k.e, b)) else Compare(Eval(k.e, b), Eval(k.e, a))
  }

  /** `$sort`: the first key that differs decides. */
  function Sorts(keys: seq<SortKey>, a: Doc, b: Doc): int {
    if keys == [] then 0
    else
      var c := Sorts(keys[..|keys| - 1], a, b);
      if c != 0 then c else Decides(keys[|keys| - 1], a, b)
  }

  /** Assignment to the sort dictionary: a key that is present keeps its place. */
  function Assign(keys: seq<SortKey>, e: Expr, ascending: bool): seq<SortKey> {
    if keys == [] then [SortKey(e, ascending)]
    else if keys[0].e == e then [SortKey(e, ascending)] + keys[1..]
    else [keys[0]] + Assign(keys[1..], e, ascending)
  }

  lemma {:induction false} AssignFresh(keys: seq<SortKey>, e: Expr, ascending: bool)
    requires forall k <- keys :: k.e != e
    ensures Assign(keys, e, ascending) == keys + [SortKey(e, ascending)]
  {
    if keys != [] {
      AssignFresh(keys[1..], e, ascending);
      assert keys == [keys[0]] + keys[1..];
    }
  }

  /** Assigning the keys of a field the dictionary does not mention yet. */
  lemma AssignTwo(keys: seq<SortKey>, rank: Expr, o: Order)
    requires (forall k <- keys :: k.e.f != o.field) && rank.f == o.field && !rank.Stored?
    ensures Assign(keys, Stored(o.field), o.ascending) == keys + [SortKey(Stored(o.field), o.ascending)]
    ensures Assign(Assign(keys, rank, true), Stored(o.field), o.ascending) ==
            keys + [SortKey(rank, true), SortKey(Stored(o.field), o.ascending)]
  {
    AssignFresh(keys, Stored(o.field), o.ascending);
    AssignFresh(keys, rank, true);
    AssignFresh(keys + [SortKey(rank, true)], Stored(o.field), o.ascending);
  }

  /** The keys one order compiles to, in each of the searches. */
  function RunKeys(o: Order): seq<SortKey> {
    [SortKey(if o.field.RunMetric? then MetricRank(o.field) else MissingRank(o.field), true),
        SortKey(Stored(o.field), o.ascending)]
  }

  const NULLABLE := {Attribute("model_type"), Attribute("source_run_id"), Attribute("status_message")}

  function ModelKeys(o: Order): seq<SortKey> {
    (if (o.field in NULLABLE || o.field.ModelMetric?) && o.ascending then [SortKey(MissingFlag(o.field), true)] else [])
    + [SortKey(Stored(o.field), o.ascending)]
  }

  predicate IsDirect(f: Field) {
    f == TIMESTAMP || f == Id || f == EXPERIMENT_ID
  }

  function TraceKeys(o: Order): seq<SortKey> {
    if IsDirect(o.field) then [SortKey(Stored(o.field), o.ascending)]
    else [SortKey(MissingRank(o.field), true), SortKey(Stored(o.field), o.ascending)]
  }

  datatype Search = Runs | Models | Traces

  function KeysOf(s: Search, o: Order): seq<SortKey> {
    match s
    case Runs => RunKeys(o)
    case Models => ModelKeys(o)
    case Traces => TraceKeys(o)
  }

  function Keys(s: Search, orders: seq<Order>): seq<SortKey> {
    if orders == [] then []
    else Keys(s, orders[..|orders| - 1]) + KeysOf(s, orders[|orders| - 1])
  }

  lemma {:induction false} KeysMention(s: Search, orders: seq<Order>, k: SortKey)
    requires k in Keys(s, orders)
    ensures Observed(orders, k.e.f)
  {
    var init, o := orders[..|orders| - 1], orders[|orders| - 1];
    if k in Keys(s, init) {
      KeysMention(s, init, k);
      var i :| 0 <= i < |init| && init[i].field == k.e.f;
      assert orders[i].field == k.e.f;
    } else {
      assert o.field == k.e.f;
    }
  }

  // ---------- the parsers ----------

  function Ties(s: Search): seq<Order> {
    match s
    case Runs => RUN_TIES
    case Models => MODEL_TIES
    case Traces => TRACE_TIES
  }

  /** The sort a search sends for the caller's orders. */
  function SentKeys(s: Search, orders: seq<Order>): seq<SortKey> {
    Keys(s, WithTies(FirstMentions(orders), Ties(s)))
  }

  /** _parse_run_order: a repeated field is refused, the default orders are appended. */
  method ParseRunOrder(orders: seq<Order>) returns (r: Option<seq<Order>>)
    ensures r == if Distinct(orders) then Some(WithTies(FirstMentions(orders), RUN_TIES)) else None
  {
    var observed: set<Field> := {};
    for i := 0 to |orders|
      invariant Distinct(orders[..i])
      invariant forall f :: f in observed <==> exists j :: 0 <= j < i && orders[j].field == f
    {
      if orders[i].field in observed { return None; }
      observed := observed + {orders[i].field};
    }
    assert orders[..|orders|] == orders;
    DistinctIsKept(orders);
    r := Some(AppendDefaults(orders, RUN_TIES[0], RUN_TIES[1]));
  }

  lemma MentionOneMore(orders: seq<Order>, i: nat)
    requires i < |orders|
    ensures forall f :: Observed(orders[..i + 1], f) <==> Observed(orders[..i], f) || f == orders[i].field
    ensures FirstMentions(orders[..i + 1])
         == if Observed(orders[..i], orders[i].field) then FirstMentions(orders[..i])
             else FirstMentions(orders[..i]) + [orders[i]]
  {
    var o := orders[i];
    assert orders[..i + 1] == orders[..i] + [o] && orders[..i + 1][..i] == orders[..i];
    forall f ensures Observed(orders[..i + 1], f) <==> Observed(orders[..i], f) || f == o.field {
      ObservedAppend(orders[..i], [o], f);
      assert [o][0] == o;
    }
  }

  /** The two default orders, each unless its field is among the orders. */
  function AppendDefaults(orders: seq<Order>, first: Order, second: Order): (r: seq<Order>)
    requires first.field != second.field
    ensures r == WithTies(orders, [first, second])
  {
    var once := if Observed(orders, first.field) then orders else orders + [first];
    assert Observed(once, second.field) <==> Observed(orders, second.field) by {
      ObservedAppend(orders, [first], second.field);
      assert !Observed([first], second.field);
    }
    assert [first, second][0] == first && [first, second][1..] == [second] && [second][1..] == [];
    var twice := if Observed(orders, second.field) then once else once + [second];
    assert WithTies(once, [second]) == WithTies(twice, []) == twice;
    twice
  }

  /** What a parsed order is counted for: two sort keys for whatever may need a rank. */
  function Weight(o: Order): nat {
    if o.field.ModelMetric? || o.field in NULLABLE then 2 else 1
  }

  function TotalWeight(orders: seq<Order>): nat {
    if orders == [] then 0 else TotalWeight(orders[..|orders| - 1]) + Weight(orders[|orders| - 1])
  }

  lemma {:induction false} WeightBoundsTheKeys(orders: seq<Order>)
    ensures |Keys(Models, orders)| <= TotalWeight(orders)
  {
    if orders != [] { WeightBoundsTheKeys(orders[..|orders| - 1]); }
  }

  /** The loop that skips fields it has seen. */
  method DropRepeats(orders: seq<Order>) returns (kept: seq<Order>)
    ensures kept == FirstMentions(orders)
  {
    kept := [];
    var seen: set<Field> := {};
    for i := 0 to |orders|
      invariant kept == FirstMentions(orders[..i])
      invariant forall f :: f in seen <==> Observed(orders[..i], f)
    {
      var o := orders[i];
      MentionOneMore(orders, i);
      if o.field !in seen {
        seen := seen + {o.field};
        kept := kept + [o];
      }
    }
    assert orders[..|orders|] == orders;
  }

  const MAX_SORT_KEYS := 32

  /** _parse_logged_model_order after its validation: later repetitions are dropped, the defaults are
      appended, and no accepted list compiles to more sort keys than MongoDB takes. */
  method ParseModelOrder(orders: seq<Order>) returns (r: Option<seq<Order>>)
    ensures var sent := WithTies(FirstMentions(orders), MODEL_TIES);
            r == if TotalWeight(sent) <= MAX_SORT_KEYS then Some(sent) else None
    ensures r.Some? ==> |SentKeys(Models, orders)| <= MAX_SORT_KEYS
  {
    var kept := DropRepeats(orders);
    var parsed := AppendDefaults(kept, MODEL_TIES[0], MODEL_TIES[1]);
    assert parsed == WithTies(FirstMentions(orders), MODEL_TIES);
    WeightBoundsTheKeys(parsed);
    var sortKeys := CountSortKeys(parsed);
    if sortKeys > MAX_SORT_KEYS { return None; }
    return Some(parsed);
  }

  method CountSortKeys(orders: seq<Order>) returns (sum: nat)
    ensures sum == TotalWeight(orders)
  {
    sum := 0;
    for i := 0 to |orders|
      invariant sum == TotalWeight(orders[..i])
    {
      assert orders[..i + 1][..i] == orders[..i];
      sum := sum + Weight(orders[i]);
    }
    assert orders[..|orders|] == orders;
  }

  /** The sort dictionary of RunRepository.search; its computed fields are numbered, hence new. */
  method RunSort(orders: seq<Order>) returns (sort: seq<SortKey>)
    ensures sort == Keys(Runs, orders)
  {
    sort := [];
    for i := 0 to |orders|
      invariant sort == Keys(Runs, orders[..i])
    {
      var o := orders[i];
      var rank := if o.field.RunMetric? then MetricRank(o.field) else MissingRank(o.field);
      sort := sort + [SortKey(rank, true)];
      sort := sort + [SortKey(Stored(o.field), o.ascending)];
      assert orders[..i + 1][..i] == orders[..i];
    }
    assert orders[..|orders|] == orders;
  }

  /** _order_stages of logged models. */
  method ModelSort(orders: seq<Order>) returns (sort: seq<SortKey>)
    requires Distinct(orders)
    ensures sort == Keys(Models, orders)
  {
    sort := [];
    for i := 0 to |orders|
      invariant sort == Keys(Models, orders[..i])
    {
      var o := orders[i];
      NextKeys(Models, orders, i, MissingFlag(o.field));
      if (o.field in NULLABLE || o.field.ModelMetric?) && o.ascending {
        sort := Assign(sort, MissingFlag(o.field), true);
      }
      sort := Assign(sort, Stored(o.field), o.ascending);
    }
    assert orders[..|orders|] == orders;
  }

  /** No key made so far reads the next field. */
  lemma NewField(s: Search, orders: seq<Order>, i: nat)
    requires Distinct(orders) && i < |orders|
    ensures Keys(s, orders[..i + 1]) == Keys(s, orders[..i]) + KeysOf(s, orders[i])
    ensures forall k <- Keys(s, orders[..i]) :: k.e.f != orders[i].field
  {
    assert orders[..i + 1][..i] == orders[..i];
    forall k | k in Keys(s, orders[..i]) ensures k.e.f != orders[i].field {
      KeysMention(s, orders[..i], k);
    }
  }

  /** What assigning the keys of the next order makes of the dictionary. */
  lemma NextKeys(s: Search, orders: seq<Order>, i: nat, rank: Expr)
    requires Distinct(orders) && i < |orders| && rank.f == orders[i].field && !rank.Stored?
    ensures var o, keys := orders[i], Keys(s, orders[..i]);
            && Keys(s, orders[..i + 1]) == keys + KeysOf(s, o)
            && Assign(keys, Stored(o.field), o.ascending) == keys + [SortKey(Stored(o.field), o.ascending)]
            && Assign(Assign(keys, rank, true), Stored(o.field), o.ascending) ==
                 keys + [SortKey(rank, true), SortKey(Stored(o.field), o.ascending)]
  {
    NewField(s, orders, i);
    AssignTwo(Keys(s, orders[..i]), rank, orders[i]);
  }

  /** _search_order_stages of traces, with its tie breakers. */
  method TraceSort(orders: seq<Order>) returns (sort: seq<SortKey>)
    requires Distinct(orders)
    ensures sort == SentKeys(Traces, orders)
  {
    DistinctIsKept(orders);
    sort := [];
    var observed: set<Field> := {};
    for i := 0 to |orders|
      invariant sort == Keys(Traces, orders[..i])
      invariant forall f :: f in observed <==> exists j :: 0 <= j < i && orders[j].field == f
    {
      var o := orders[i];
      observed := observed + {o.field};
      NextKeys(Traces, orders, i, MissingRank(o.field));
      if IsDirect(o.field) {
        sort := Assign(sort, Stored(o.field), o.ascending);
        continue;
      }
      sort := Assign(sort, MissingRank(o.field), true);
      sort := Assign(sort, Stored(o.field), o.ascending);
    }
    assert orders[..|orders|] == orders;
    TraceTies(orders);
    if TIMESTAMP !in observed { sort := Assign(sort, Stored(TIMESTAMP), false); }
    if Id !in observed { sort := Assign(sort, Stored(Id), true); }
  }

  lemma TraceTies(orders: seq<Order>)
    ensures var keys := Keys(Traces, orders);
            var timed := if Observed(orders, TIMESTAMP) then keys else Assign(keys, Stored(TIMESTAMP), false);
            Keys(Traces, WithTies(orders, TRACE_TIES)) == if Observed(orders, Id) then timed
                else Assign(timed, Stored(Id), true)
  {
    var timed := if Observed(orders, TIMESTAMP) then orders else orders + [TRACE_TIES[0]];
    assert AppendDefaults(orders, TRACE_TIES[0], TRACE_TIES[1]) ==
        if Observed(orders, Id) then timed else timed + [TRACE_TIES[1]];
    ObservedAppend(orders, [TRACE_TIES[0]], Id);
    assert !Observed([TRACE_TIES[0]], Id);
    if !Observed(orders, TIMESTAMP) { AppendTie(orders, TRACE_TIES[0]); }
    if !Observed(orders, Id) { AppendTie(timed, TRACE_TIES[1]); }
  }

  lemma AppendTie(orders: seq<Order>, tie: Order)
    requires !Observed(orders, tie.field) && IsDirect(tie.field)
    ensures Assign(Keys(Traces, orders), Stored(tie.field), tie.ascending) == Keys(Traces, orders + [tie])
  {
    forall k | k in Keys(Traces, orders) ensures k.e.f != tie.field { KeysMention(Traces, orders, k); }
    AssignFresh(Keys(Traces, orders), Stored(tie.field), tie.ascending);
    assert (orders + [tie])[..|orders|] == orders;
  }

  // ---------- the keys do what was asked ----------

  /** Fields the searches sort on directly are never missing. */
  predicate Stores(s: Search, d: Doc, f: Field) {
    match s
    case Runs => true
    case Models =>
      f.Attribute? && f.key != "model_type" && f.key != "source_run_id" && f.key != "status_message" ==>
          Read(d, f) != Null
    case Traces => f == Attribute("timestamp_ms") || f == Attribute("experiment_id") ==> Read(d, f) != Null
  }

  /** Which field kinds a search can be ordered by. */
  predicate Belongs(s: Search, f: Field) {
    match s
    case Runs => !f.ModelMetric?
    case Models => f.Id? || f.Attribute? || f.ModelMetric?
    case Traces => f.Id? || f.Attribute? || f.Embedded?
  }

  predicate Sortable(s: Search, orders: seq<Order>, d: Doc) {
    forall o <- orders :: Belongs(s, o.field) && Stores(s, d, o.field)
  }

  lemma SortsSnoc(keys: seq<SortKey>, k: SortKey, a: Doc, b: Doc)
    ensures Sorts(keys + [k], a, b) == if Sorts(keys, a, b) != 0 then Sorts(keys, a, b) else Decides(k, a, b)
  {
    assert (keys + [k])[..|keys|] == keys;
  }

  /** A rank key in front of the value puts the missing values, and NaN metrics before them, last. */
  lemma RankThenValue(e: Expr, o: Order, a: Doc, b: Doc)
    requires e.f == o.field && !e.Stored?
    requires e.MetricRank? <==> o.field.RunMetric?
    ensures var c := Compare(Eval(e, a), Eval(e, b));
            (if c != 0 then c else Decides(SortKey(Stored(o.field), o.ascending), a, b)) ==
                Wanted(o, Read(a, o.field), Read(b, o.field))
  {
    CompareLaws(Read(a, o.field), Read(b, o.field), Null);
    WantedIsComparedIfPlain(o, Read(a, o.field), Read(b, o.field));
  }

  lemma ValueAlone(o: Order, a: Doc, b: Doc)
    requires !o.field.RunMetric?
    requires o.ascending ==> Read(a, o.field) != Null && Read(b, o.field) != Null
    ensures Decides(SortKey(Stored(o.field), o.ascending), a, b) == Wanted(o, Read(a, o.field), Read(b, o.field))
  {
    CompareLaws(Read(a, o.field), Read(b, o.field), Null);
    WantedIsComparedIfPlain(o, Read(a, o.field), Read(b, o.field));
  }

  lemma OneOrder(s: Search, keys: seq<SortKey>, o: Order, a: Doc, b: Doc)
    requires Belongs(s, o.field) && Stores(s, a, o.field) && Stores(s, b, o.field)
    ensures Sorts(keys + KeysOf(s, o), a, b)
         == if Sorts(keys, a, b) != 0 then Sorts(keys, a, b) else Wanted(o, Read(a, o.field), Read(b, o.field))
  {
    var ks, value := KeysOf(s, o), SortKey(Stored(o.field), o.ascending);
    if |ks| == 1 {
      assert ks == [value];
      SortsSnoc(keys, value, a, b);
      ValueAlone(o, a, b);
    } else {
      assert keys + ks == keys + [ks[0]] + [value];
      SortsSnoc(keys, ks[0], a, b);
      SortsSnoc(keys + [ks[0]], value, a, b);
      RankThenValue(ks[0].e, o, a, b);
    }
  }

  /** The generated keys, under a null-first order, realise the requested order with missing values
      last in both directions. */
  lemma {:induction false} KeysRealiseTheOrder(s: Search, orders: seq<Order>, a: Doc, b: Doc)
    requires Sortable(s, orders, a) && Sortable(s, orders, b)
    ensures Sorts(Keys(s, orders), a, b) == Requested(orders, a, b)
  {
    if orders != [] {
      var init, o := orders[..|orders| - 1], orders[|orders| - 1];
      assert o in orders && forall x <- init :: x in orders;
      KeysRealiseTheOrder(s, init, a, b);
      OneOrder(s, Keys(s, init), o, a, b);
    }
  }

  // ---------- whole searches ----------

  /** What a caller who gives a list of orders asks for: after them, the newest first, and then by id. */
  function Asked(s: Search, orders: seq<Order>): seq<Order> {
    var time := match s case Runs => "start_time" case Models => "creation_timestamp" case Traces => "timestamp_ms";
    orders + [Order(Attribute(time), false), Order(Id, true)]
  }

  /** For all documents, the sent keys compare as the caller's own list followed by the tie
      breakers; it is a total order, strict between documents with different ids. */
  lemma SearchesOrderAsAsked(s: Search, orders: seq<Order>, a: Doc, b: Doc)
    requires Sortable(s, Asked(s, orders), a) && Sortable(s, Asked(s, orders), b)
    ensures Sorts(SentKeys(s, orders), a, b) == Requested(Asked(s, orders), a, b)
    ensures Sorts(SentKeys(s, orders), a, b) == -Sorts(SentKeys(s, orders), b, a)
    ensures Sorts(SentKeys(s, orders), a, b) == 0 ==> a.id == b.id
  {
    assert Asked(s, orders) == orders + Ties(s);
    var kept := FirstMentions(orders);
    var sent := WithTies(kept, Ties(s));
    WithTiesIsAppend(kept, Ties(s), a, b);
    WithTiesIsAppend(kept, Ties(s), b, a);
    FirstMentionsOrderAlike(orders, Ties(s), a, b);
    FirstMentionsOrderAlike(orders, Ties(s), b, a);
    RequestedLaws(orders + Ties(s), a, b, a);
    SentAreAsked(orders, Ties(s));
    KeysRealiseTheOrder(s, sent, a, b);
    KeysRealiseTheOrder(s, sent, b, a);
    if Requested(orders + Ties(s), a, b) == 0 {
      TiesAgree(orders + Ties(s), a, b);
      assert (orders + Ties(s))[|orders| + 1].field == Id;
    }
  }

  lemma {:induction false} MentionsAreAsked(orders: seq<Order>)
    ensures forall o <- FirstMentions(orders) :: o in orders
  {
    if orders != [] {
      MentionsAreAsked(orders[..|orders| - 1]);
      assert forall o <- orders[..|orders| - 1] :: o in orders;
    }
  }

  lemma {:induction false} TiesAreAsked(orders: seq<Order>, ties: seq<Order>)
    ensures forall o <- WithTies(orders, ties) :: o in orders || o in ties
    decreases |ties|
  {
    if ties != [] {
      TiesAreAsked(if Observed(orders, ties[0].field) then orders else orders + [ties[0]], ties[1..]);
    }
  }

  lemma SentAreAsked(orders: seq<Order>, ties: seq<Order>)
    ensures forall o <- WithTies(FirstMentions(orders), ties) :: o in orders + ties
  {
    MentionsAreAsked(orders);
    TiesAreAsked(FirstMentions(orders), ties);
  }

  // ---------- results ----------

  /** A sorted answer over the matching documents, as MongoDB may return it. */
  ghost predicate IsListing(docs: set<Doc>, keys: seq<SortKey>, l: seq<Doc>) {
    && (forall d :: d in l <==> d in docs)
    && (forall i, j :: 0 <= i < j < |l| ==> l[i] != l[j])
    && (forall i, j :: 0 <= i < j < |l| ==> Sorts(keys, l[i], l[j]) <= 0)
  }

  ghost predicate Decisive(docs: set<Doc>, keys: seq<SortKey>) {
    forall a, b :: a in docs && b in docs && a != b && Sorts(keys, a, b) <= 0 ==> Sorts(keys, b, a) > 0
  }

  lemma {:induction false} ListingIsUnique(docs: set<Doc>, keys: seq<SortKey>, l: seq<Doc>, m: seq<Doc>)
    requires IsListing(docs, keys, l) && IsListing(docs, keys, m) && Decisive(docs, keys)
    ensures l == m
    decreases |l|
  {
    if l == [] {
      if m != [] { SameHead(docs, keys, m, l); }
    } else {
      SameHead(docs, keys, l, m);
      Tail(docs, keys, l);
      Tail(docs, keys, m);
      ListingIsUnique(docs - {l[0]}, keys, l[1..], m[1..]);
    }
  }

  lemma SameHead(docs: set<Doc>, keys: seq<SortKey>, l: seq<Doc>, m: seq<Doc>)
    requires IsListing(docs, keys, l) && IsListing(docs, keys, m) && Decisive(docs, keys)
    requires l != []
    ensures m != [] && l[0] == m[0]
  {
    assert l[0] in docs;
    assert l[0] in m;
    assert m[0] in docs;
    assert m[0] in l;
    var i :| 0 <= i < |l| && l[i] == m[0];
    var j :| 0 <= j < |m| && m[j] == l[0];
    if i > 0 && j > 0 { assert false; }
  }

  lemma Tail(docs: set<Doc>, keys: seq<SortKey>, l: seq<Doc>)
    requires IsListing(docs, keys, l) && l != []
    ensures IsListing(docs - {l[0]}, keys, l[1..])
  {
    forall d ensures d in l[1..] <==> d in docs - {l[0]} {
      assert d in l <==> d == l[0] || d in l[1..];
    }
  }

  /** Two executions of one search over the same documents return the same list. */
  lemma SearchIsDeterministic(s: Search, orders: seq<Order>, docs: set<Doc>, l: seq<Doc>, m: seq<Doc>)
    requires forall d <- docs :: Sortable(s, Asked(s, orders), d)
    requires forall a, b :: a in docs && b in docs && a.id == b.id ==> a == b
    requires IsListing(docs, SentKeys(s, orders), l) && IsListing(docs, SentKeys(s, orders), m)
    ensures l == m
    ensures forall i, j :: 0 <= i < j < |l| ==> Requested(Asked(s, orders), l[i], l[j]) < 0
  {
    var keys := SentKeys(s, orders);
    forall a, b | a in docs && b in docs && a != b && Sorts(keys, a, b) <= 0 ensures Sorts(keys, b, a) > 0 {
      SearchesOrderAsAsked(s, orders, a, b);
    }
    ListingIsUnique(docs, keys, l, m);
    forall i, j | 0 <= i < j < |l| ensures Requested(Asked(s, orders), l[i], l[j]) < 0 {
      assert l[i] in l && l[j] in l;
      SearchesOrderAsAsked(s, orders, l[i], l[j]);
    }
  }
}
