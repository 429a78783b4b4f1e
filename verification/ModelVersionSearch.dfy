/** Searching model versions: version filters before the join with registered models, name filters
    after it, and tag filters of one key fused into a single element match. */
module ModelVersionSearch {
  import opened Wrappers
  import opened ArrayOperations
  import opened LikeRegex

  const IS_PROMPT := "mlflow.prompt.is_prompt"

  /** A BSON value of a searchable field. */
  datatype Value = Null | Text(s: string) | Number(n: int)

  /** A comparator with its operand; `norm` is case folding for ILIKE and the identity for LIKE. */
  datatype Comparison =
    | Eq(x: Value)
    | Ne(x: Value)
    | In(xs: seq<Value>)
    | NotIn(xs: seq<Value>)
    | Lt(n: int)
    | Le(n: int)
    | Gt(n: int)
    | Ge(n: int)
    | Matching(pattern: string, norm: char -> char)

  datatype Filter = Attribute(key: string, c: Comparison) | Tag(key: string, c: Comparison)

  datatype Version = Version(modelId: nat, deleted: bool, attributes: map<string, Value>, tags: seq<Entry<string>>)

  datatype Model = Model(name: string)

  // ---------- MongoDB's matching ----------

  /** The document a `$match` sees: fields by path, a missing one absent, and the tag array. */
  datatype Document = Document(fields: map<string, Value>, tags: seq<Entry<string>>)

  predicate IsNegative(c: Comparison) {
    c.Ne? || c.NotIn?
  }

  /** build_value_condition applied by MongoDB. A missing field compares like null, so negated
      conditions accept it; orderings only compare numbers, and patterns only strings. */
  ghost predicate Satisfies(field: Option<Value>, c: Comparison) {
    var v := if field.Some? then field.value else Null;
    match c
    case Eq(x) => v == x
    case Ne(x) => v != x
    case In(xs) => v in xs
    case NotIn(xs) => v !in xs
    case Lt(n) => v.Number? && v.n < n
    case Le(n) => v.Number? && v.n <= n
    case Gt(n) => v.Number? && v.n > n
    case Ge(n) => v.Number? && v.n >= n
    case Matching(p, norm) => v.Text? && Searches(Items(p), v.s, norm)
  }

  datatype Clause =
    | Field(path: string, c: Comparison)
    | NotNull(path: string)
    | ElementMatch(key: string, conditions: seq<Comparison>)
    | NoElement(key: string, value: string)

  function At(d: Document, path: string): Option<Value> {
    if path in d.fields then Some(d.fields[path]) else None
  }

  ghost predicate Holds(clause: Clause, d: Document) {
    match clause
    case Field(path, c) => Satisfies(At(d, path), c)
    case NotNull(path) => path in d.fields && d.fields[path] != Null
    case ElementMatch(key, cs) =>
      exists e <- d.tags :: e.k == key && forall i :: 0 <= i < |cs| ==> Satisfies(Some(Text(e.v)), cs[i])
    case NoElement(key, value) => forall e <- d.tags :: !(e.k == key && e.v == value)
  }

  ghost predicate AllHold(clauses: seq<Clause>, d: Document) {
    forall i :: 0 <= i < |clauses| ==> Holds(clauses[i], d)
  }

  // ---------- building the clauses ----------

  function FieldPath(prefix: string, key: string): string {
    prefix + (if key == "version_number" then "version" else if key == "source_path" then "source" else key)
  }

  /** _build_attribute_clause: negative comparisons must not accept null or missing fields. */
  function AttributeClauses(path: string, c: Comparison): seq<Clause> {
    if IsNegative(c) then [NotNull(path), Field(path, c)] else [Field(path, c)]
  }

  /** `tag_filters.setdefault(key, []).append(filter)`, the dictionary kept in insertion order. */
  function AddToGroup(groups: seq<(string, seq<Comparison>)>, key: string, c: Comparison)
      : seq<(string, seq<Comparison>)>
  {
    if groups == [] then [(key, [c])]
    else if groups[0].0 == key then [(key, groups[0].1 + [c])] + groups[1..]
    else [groups[0]] + AddToGroup(groups[1..], key, c)
  }

  function Groups(filters: seq<Filter>): seq<(string, seq<Comparison>)> {
    if filters == [] then []
    else
      var init, last := Groups(filters[..|filters| - 1]), filters[|filters| - 1];
      if last.Tag? then AddToGroup(init, last.key, last.c) else init
  }

  function AttributePart(filters: seq<Filter>, prefix: string): seq<Clause> {
    if filters == [] then []
    else
      var init, last := AttributePart(filters[..|filters| - 1], prefix), filters[|filters| - 1];
      if last.Tag? then init else init + AttributeClauses(FieldPath(prefix, last.key), last.c)
  }

  function TagPart(groups: seq<(string, seq<Comparison>)>): seq<Clause> {
    if groups == [] then []
    else TagPart(groups[..|groups| - 1]) + [ElementMatch(groups[|groups| - 1].0, groups[|groups| - 1].1)]
  }

  function FilterClauses(filters: seq<Filter>, prefix: string): seq<Clause> {
    AttributePart(filters, prefix) + TagPart(Groups(filters))
  }

  /** _build_filter_clauses, with its two loops. */
  method BuildFilterClauses(filters: seq<Filter>, prefix: string) returns (clauses: seq<Clause>)
    ensures clauses == FilterClauses(filters, prefix)
  {
    clauses := [];
    var groups: seq<(string, seq<Comparison>)> := [];
    for i := 0 to |filters|
      invariant clauses == AttributePart(filters[..i], prefix)
      invariant groups == Groups(filters[..i])
    {
      assert filters[..i + 1][..i] == filters[..i];
      match filters[i] {
        case Tag(key, c) => groups := AddToGroup(groups, key, c);
        case Attribute(key, c) =>
          var path := FieldPath(prefix, key);
          if IsNegative(c) { clauses := clauses + [NotNull(path), Field(path, c)]; }
          else { clauses := clauses + [Field(path, c)]; }
      }
    }
    assert filters[..|filters|] == filters;
    ghost var attributes := clauses;
    for i := 0 to |groups|
      invariant clauses == attributes + TagPart(groups[..i])
    {
      assert groups[..i + 1][..i] == groups[..i];
      clauses := clauses + [ElementMatch(groups[i].0, groups[i].1)];
    }
    assert groups[..|groups|] == groups;
  }

  // ---------- the two-phase plan ----------

  predicate IsNameFilter(f: Filter) {
    f.Attribute? && f.key == "name"
  }

  /** With prompts excluded, prompt-tag filters are replaced by the exclusion. */
  predicate IsDropped(f: Filter, excludePrompts: bool) {
    excludePrompts && f.Tag? && f.key == IS_PROMPT
  }

  function VersionFilters(filters: seq<Filter>, excludePrompts: bool): seq<Filter> {
    if filters == [] then []
    else
      var init, last := VersionFilters(filters[..|filters| - 1], excludePrompts), filters[|filters| - 1];
      if !IsNameFilter(last) && !IsDropped(last, excludePrompts) then init + [last] else init
  }

  function NameFilters(filters: seq<Filter>): seq<Filter> {
    if filters == [] then []
    else
      var init, last := NameFilters(filters[..|filters| - 1]), filters[|filters| - 1];
      if IsNameFilter(last) then init + [last] else init
  }

  const MODEL_PREFIX := "registered_model."

  function VersionDocument(v: Version): Document {
    Document(v.attributes, v.tags)
  }

  /** After `$lookup` and `$unwind` the owning model's fields sit under their own path. */
  function JoinedDocument(v: Version, m: Model): Document {
    Document(v.attributes[MODEL_PREFIX + "name" := Text(m.name)], v.tags)
  }

  ghost predicate VersionStage(filters: seq<Filter>, excludePrompts: bool, v: Version) {
    && !v.deleted
    && AllHold(FilterClauses(VersionFilters(filters, excludePrompts), ""), VersionDocument(v))
    && (excludePrompts ==> Holds(NoElement(IS_PROMPT, "true"), VersionDocument(v)))
  }

  ghost predicate NameStage(filters: seq<Filter>, v: Version, m: Model) {
    AllHold(FilterClauses(NameFilters(filters), MODEL_PREFIX), JoinedDocument(v, m))
  }

  /** search: match versions, join, unwind, match names. */
  ghost function Search(versions: seq<Version>, models: map<nat, Model>, filters: seq<Filter>, excludePrompts: bool)
      : seq<(Version, Model)>
  {
    if versions == [] then []
    else
      var init := Search(versions[..|versions| - 1], models, filters, excludePrompts);
      var v := versions[|versions| - 1];
      if VersionStage(filters, excludePrompts, v) && v.modelId in models && NameStage(filters, v, models[v.modelId])
      then init + [(v, models[v.modelId])] else init
  }

  // ---------- what the filters mean ----------

  /** LIKE as the search has it: a final newline may be left over unless the pattern ends in `%`. */
  ghost predicate IsLike(s: string, p: string, norm: char -> char) {
    || Like(p, s, norm)
    || (s != "" && s[|s| - 1] == '\n' && (p == "" || p[|p| - 1] != '%') && Like(p, s[..|s| - 1], norm))
  }

  /** A value as a comparison asks for it; a missing value satisfies none. */
  ghost predicate Asked(c: Comparison, v: Value) {
    && v != Null
    && (c.Eq? ==> v == c.x)
    && (c.Ne? ==> v != c.x)
    && (c.In? ==> exists i :: 0 <= i < |c.xs| && c.xs[i] == v)
    && (c.NotIn? ==> forall i :: 0 <= i < |c.xs| ==> c.xs[i] != v)
    && (c.Lt? ==> v.Number? && v.n < c.n)
    && (c.Le? ==> v.Number? && v.n <= c.n)
    && (c.Gt? ==> v.Number? && c.n < v.n)
    && (c.Ge? ==> v.Number? && c.n <= v.n)
    && (c.Matching? ==> v.Text? && IsLike(v.s, c.pattern, c.norm))
  }

  /** The value a search key denotes: the name is the model's, two keys are stored under other names. */
  function ValueOf(v: Version, m: Model, key: string): Value {
    var field := if key == "version_number" then "version" else if key == "source_path" then "source" else key;
    if key == "name" then Text(m.name) else if field in v.attributes then v.attributes[field] else Null
  }

  /** One filter on its own, on a version and its model. */
  ghost predicate FilterHolds(f: Filter, v: Version, m: Model) {
    match f
    case Attribute(key, c) => Asked(c, ValueOf(v, m, key))
    case Tag(key, c) => exists e <- v.tags :: e.k == key && Asked(c, Text(e.v))
  }

  ghost predicate Qualifies(filters: seq<Filter>, excludePrompts: bool, v: Version, m: Model) {
    && !v.deleted
    && (forall f <- filters :: IsDropped(f, excludePrompts) || FilterHolds(f, v, m))
    && (excludePrompts ==> forall e <- v.tags :: !(e.k == IS_PROMPT && e.v == "true"))
  }

  /** The naive search: the joined relation, filtered once by everything. */
  ghost function FilteredJoin(versions: seq<Version>, models: map<nat, Model>, filters: seq<Filter>,
      excludePrompts: bool): seq<(Version, Model)>
  {
    if versions == [] then []
    else
      var init := FilteredJoin(versions[..|versions| - 1], models, filters, excludePrompts);
      var v := versions[|versions| - 1];
      if v.modelId in models && Qualifies(filters, excludePrompts, v, models[v.modelId])
      then init + [(v, models[v.modelId])] else init
  }

  /** Operands are never null: the parser only produces strings and numbers. */
  ghost predicate NonNull(c: Comparison) {
    match c
    case Eq(x) => x != Null
    case In(xs) => Null !in xs
    case _ => true
  }

  // ---------- fusing is harmless ----------

  ghost predicate TagHolds(tags: seq<Entry<string>>, key: string, c: Comparison) {
    exists e <- tags :: e.k == key && Satisfies(Some(Text(e.v)), c)
  }

  ghost predicate GroupHolds(tags: seq<Entry<string>>, key: string, cs: seq<Comparison>) {
    exists e <- tags :: e.k == key && forall c <- cs :: Satisfies(Some(Text(e.v)), c)
  }

  ghost predicate GroupsHold(tags: seq<Entry<string>>, groups: seq<(string, seq<Comparison>)>) {
    forall g <- groups :: GroupHolds(tags, g.0, g.1)
  }

  lemma UniqueTag(tags: seq<Entry<string>>, a: Entry<string>, b: Entry<string>)
    requires UniqueKeys(tags) && a in tags && b in tags && a.k == b.k
    ensures a == b
  {}

  lemma {:induction false} AddToGroupHolds(tags: seq<Entry<string>>, groups: seq<(string, seq<Comparison>)>,
      key: string, c: Comparison)
    requires UniqueKeys(tags)
    ensures GroupsHold(tags, AddToGroup(groups, key, c)) <==> GroupsHold(tags, groups) && TagHolds(tags, key, c)
  {
    if groups == [] {
      assert AddToGroup(groups, key, c) == [(key, [c])];
      assert GroupHolds(tags, key, [c]) <==> TagHolds(tags, key, c);
    } else {
      var g, rest := groups[0], groups[1..];
      assert groups == [g] + rest;
      if g.0 == key {
        FusedGroup(tags, key, g.1, c);
        assert AddToGroup(groups, key, c) == [(key, g.1 + [c])] + rest;
      } else {
        AddToGroupHolds(tags, rest, key, c);
        assert AddToGroup(groups, key, c) == [g] + AddToGroup(rest, key, c);
      }
    }
  }

  /** With unique keys one element satisfying everything is the same as one element per condition. */
  lemma FusedGroup(tags: seq<Entry<string>>, key: string, cs: seq<Comparison>, c: Comparison)
    requires UniqueKeys(tags)
    ensures GroupHolds(tags, key, cs + [c]) <==> GroupHolds(tags, key, cs) && TagHolds(tags, key, c)
  {
    if GroupHolds(tags, key, cs) && TagHolds(tags, key, c) {
      var a :| a in tags && a.k == key && forall x <- cs :: Satisfies(Some(Text(a.v)), x);
      var b :| b in tags && b.k == key && Satisfies(Some(Text(b.v)), c);
      UniqueTag(tags, a, b);
      assert forall x <- cs + [c] :: Satisfies(Some(Text(a.v)), x);
    }
    if GroupHolds(tags, key, cs + [c]) {
      var a :| a in tags && a.k == key && forall x <- cs + [c] :: Satisfies(Some(Text(a.v)), x);
      assert c in cs + [c] && forall x <- cs :: x in cs + [c];
    }
  }

  lemma {:induction false} TagPartHolds(groups: seq<(string, seq<Comparison>)>, d: Document)
    ensures AllHold(TagPart(groups), d) <==> GroupsHold(d.tags, groups)
  {
    if groups != [] {
      var init, last := groups[..|groups| - 1], groups[|groups| - 1];
      TagPartHolds(init, d);
      assert groups == init + [last];
      AllHoldAppend(TagPart(init), [ElementMatch(last.0, last.1)], d);
      ElementIsGroup(last.0, last.1, d);
      assert [ElementMatch(last.0, last.1)][0] == ElementMatch(last.0, last.1);
    }
  }

  lemma ElementIsGroup(key: string, cs: seq<Comparison>, d: Document)
    ensures Holds(ElementMatch(key, cs), d) <==> GroupHolds(d.tags, key, cs)
  {
    forall e | e in d.tags
      ensures (forall i :: 0 <= i < |cs| ==> Satisfies(Some(Text(e.v)), cs[i])) <==>
              (forall c <- cs :: Satisfies(Some(Text(e.v)), c)) {}
  }

  lemma AllHoldAppend(a: seq<Clause>, b: seq<Clause>, d: Document)
    ensures AllHold(a + b, d) <==> AllHold(a, d) && AllHold(b, d)
  {
    if AllHold(a + b, d) {
      forall i | 0 <= i < |a| ensures Holds(a[i], d) { assert (a + b)[i] == a[i]; }
      forall i | 0 <= i < |b| ensures Holds(b[i], d) { assert (a + b)[|a| + i] == b[i]; }
    }
  }

  /** A comparison accepts a field only if it has a value. */
  ghost predicate Accepts(field: Option<Value>, c: Comparison) {
    field.Some? && field.value != Null && Satisfies(field, c)
  }

  /** What the server makes of a comparison is what was asked. */
  lemma SatisfiesIsAsked(c: Comparison, v: Value)
    requires v != Null
    ensures Satisfies(Some(v), c) <==> Asked(c, v)
  {
    match c {
      case In(xs) =>
      case NotIn(xs) =>
      case Matching(p, norm) =>
        if v.Text? {
          LikeRegexMeaning(p, v.s, norm);
          PatternParses(p);
        }
      case _ =>
    }
  }

  /** One filter, on the document its clauses are matched against. */
  ghost predicate HoldsOn(f: Filter, prefix: string, d: Document) {
    match f
    case Attribute(key, c) => Accepts(At(d, FieldPath(prefix, key)), c)
    case Tag(key, c) => TagHolds(d.tags, key, c)
  }

  lemma AttributeIsAccepts(path: string, c: Comparison, d: Document)
    requires NonNull(c)
    ensures AllHold(AttributeClauses(path, c), d) <==> Accepts(At(d, path), c)
  {
    var clauses := AttributeClauses(path, c);
    if IsNegative(c) {
      assert clauses[0] == NotNull(path) && clauses[1] == Field(path, c);
    } else {
      assert clauses[0] == Field(path, c);
    }
  }

  /** The clauses built for a list of filters hold exactly if every filter holds on its own. */
  lemma {:induction false} ClausesAreIndependent(filters: seq<Filter>, prefix: string, d: Document)
    requires UniqueKeys(d.tags) && forall f <- filters :: NonNull(f.c)
    ensures AllHold(FilterClauses(filters, prefix), d) <==> forall f <- filters :: HoldsOn(f, prefix, d)
  {
    AllHoldAppend(AttributePart(filters, prefix), TagPart(Groups(filters)), d);
    TagPartHolds(Groups(filters), d);
    if filters != [] {
      var init, last := filters[..|filters| - 1], filters[|filters| - 1];
      assert filters == init + [last];
      assert last in filters && forall f <- init :: f in filters;
      ClausesAreIndependent(init, prefix, d);
      AllHoldAppend(AttributePart(init, prefix), TagPart(Groups(init)), d);
      TagPartHolds(Groups(init), d);
      if last.Tag? {
        AddToGroupHolds(d.tags, Groups(init), last.key, last.c);
      } else {
        AllHoldAppend(AttributePart(init, prefix), AttributeClauses(FieldPath(prefix, last.key), last.c), d);
        AttributeIsAccepts(FieldPath(prefix, last.key), last.c, d);
      }
    }
  }

  // ---------- pushing filters below the join is harmless ----------

  lemma {:induction false} FiltersSplit(filters: seq<Filter>, excludePrompts: bool)
    ensures forall f <- filters :: f in VersionFilters(filters, excludePrompts) <==>
            !IsNameFilter(f) && !IsDropped(f, excludePrompts)
    ensures forall f <- filters :: f in NameFilters(filters) <==> IsNameFilter(f)
    ensures forall f <- VersionFilters(filters, excludePrompts) ::
            f in filters && !IsNameFilter(f) && !IsDropped(f, excludePrompts)
    ensures forall f <- NameFilters(filters) :: f in filters && IsNameFilter(f)
  {
    if filters != [] {
      assert filters == filters[..|filters| - 1] + [filters[|filters| - 1]];
      FiltersSplit(filters[..|filters| - 1], excludePrompts);
    }
  }

  lemma VersionFilterMeaning(f: Filter, v: Version, m: Model)
    requires !IsNameFilter(f)
    ensures HoldsOn(f, "", VersionDocument(v)) <==> FilterHolds(f, v, m)
  {
    if f.Attribute? {
      assert "" + f.key == f.key && "" + "version" == "version" && "" + "source" == "source";
      if ValueOf(v, m, f.key) != Null { SatisfiesIsAsked(f.c, ValueOf(v, m, f.key)); }
    } else {
      forall e | e in v.tags ensures Satisfies(Some(Text(e.v)), f.c) <==> Asked(f.c, Text(e.v)) {
        SatisfiesIsAsked(f.c, Text(e.v));
      }
    }
  }

  lemma PlanQualifies(filters: seq<Filter>, excludePrompts: bool, v: Version, m: Model)
    requires UniqueKeys(v.tags) && forall f <- filters :: NonNull(f.c)
    ensures VersionStage(filters, excludePrompts, v) && NameStage(filters, v, m) <==>
            Qualifies(filters, excludePrompts, v, m)
  {
    FiltersSplit(filters, excludePrompts);
    ClausesAreIndependent(VersionFilters(filters, excludePrompts), "", VersionDocument(v));
    ClausesAreIndependent(NameFilters(filters), MODEL_PREFIX, JoinedDocument(v, m));
    forall f | f in VersionFilters(filters, excludePrompts)
      ensures HoldsOn(f, "", VersionDocument(v)) <==> FilterHolds(f, v, m)
    {
      VersionFilterMeaning(f, v, m);
    }
    forall f | f in NameFilters(filters) ensures HoldsOn(f, MODEL_PREFIX, JoinedDocument(v, m)) <==>
        FilterHolds(f, v, m) {
      assert FieldPath(MODEL_PREFIX, "name") == MODEL_PREFIX + "name";
      SatisfiesIsAsked(f.c, Text(m.name));
    }
  }

  /** The two-phase plan returns exactly the filtered join, in the same order, whenever stored tag
      keys are unique. */
  lemma {:induction false} PlanIsFilteredJoin(versions: seq<Version>, models: map<nat, Model>, filters: seq<Filter>,
      excludePrompts: bool)
    requires forall v <- versions :: UniqueKeys(v.tags)
    requires forall f <- filters :: NonNull(f.c)
    ensures Search(versions, models, filters, excludePrompts) == FilteredJoin(versions, models, filters, excludePrompts)
  {
    if versions != [] {
      var v := versions[|versions| - 1];
      assert forall w <- versions[..|versions| - 1] :: w in versions;
      PlanIsFilteredJoin(versions[..|versions| - 1], models, filters, excludePrompts);
      if v.modelId in models {
        assert v in versions;
        PlanQualifies(filters, excludePrompts, v, models[v.modelId]);
      }
    }
  }

  /** Two filters on one key end up in one group. */
  lemma SameKeyFuses(key: string, c: Comparison, c': Comparison)
    ensures VersionFilters([Tag(key, c), Tag(key, c')], false) == [Tag(key, c), Tag(key, c')]
    ensures Groups([Tag(key, c), Tag(key, c')]) == [(key, [c, c'])]
  {
    var filters := [Tag(key, c), Tag(key, c')];
    assert filters[..1] == [Tag(key, c)] && filters[..1][..0] == [];
    assert VersionFilters(filters[..1], false) == [] + [Tag(key, c)];
    assert Groups(filters[..1]) == [(key, [c])];
    assert [(key, [c])][1..] == [] && [c] + [c'] == [c, c'];
  }

  /** No tag value is two texts at once. */
  lemma NoSharedValue(tags: seq<Entry<string>>, key: string, a: string, b: string)
    requires a != b
    ensures !GroupHolds(tags, key, [Eq(Text(a)), Eq(Text(b))])
  {
    var cs := [Eq(Text(a)), Eq(Text(b))];
    forall e | e in tags ensures !forall c <- cs :: Satisfies(Some(Text(e.v)), c) {
      assert cs[0] in cs && cs[1] in cs;
    }
  }

  lemma FusedDoesNotHold(key: string, a: string, b: string, d: Document)
    requires a != b
    ensures !AllHold(FilterClauses([Tag(key, Eq(Text(a))), Tag(key, Eq(Text(b)))], ""), d)
  {
    var filters := [Tag(key, Eq(Text(a))), Tag(key, Eq(Text(b)))];
    SameKeyFuses(key, Eq(Text(a)), Eq(Text(b)));
    NoSharedValue(d.tags, key, a, b);
    assert Groups(filters)[0] in Groups(filters);
    TagPartHolds(Groups(filters), d);
    AllHoldAppend(AttributePart(filters, ""), TagPart(Groups(filters)), d);
  }

  /** Unique tag keys are needed: with a repeated key, two filters that different elements satisfy
      hold independently but not fused. */
  lemma RepeatedKeyBreaksFusion(key: string, a: string, b: string, v: Version, m: Model)
    requires a != b && v.tags == [Entry(key, a), Entry(key, b)] && !v.deleted
    ensures Qualifies([Tag(key, Eq(Text(a))), Tag(key, Eq(Text(b)))], false, v, m)
    ensures !VersionStage([Tag(key, Eq(Text(a))), Tag(key, Eq(Text(b)))], false, v)
  {
    assert v.tags[0] in v.tags && v.tags[1] in v.tags;
    SameKeyFuses(key, Eq(Text(a)), Eq(Text(b)));
    FusedDoesNotHold(key, a, b, VersionDocument(v));
  }

  /** With prompts excluded, a filter on the prompt tag is dropped. The exclusion in its place is the
      filter, with a missing tag accepted, exactly if the filter accepts the version's prompt tag just
      when its value is not "true". */
  lemma PromptExclusionMeaning(v: Version, c: Comparison)
    requires UniqueKeys(v.tags)
    ensures (Holds(NoElement(IS_PROMPT, "true"), VersionDocument(v)) <==>
              TagHolds(v.tags, IS_PROMPT, c) || !HasKey(v.tags, IS_PROMPT))
            <==> forall e <- v.tags :: e.k == IS_PROMPT ==> (Asked(c, Text(e.v)) <==> e.v != "true")
  {
    if HasKey(v.tags, IS_PROMPT) {
      var i :| 0 <= i < |v.tags| && v.tags[i].k == IS_PROMPT;
      var e := v.tags[i];
      assert e in v.tags;
      forall x | x in v.tags && x.k == IS_PROMPT ensures x == e { UniqueTag(v.tags, x, e); }
      assert Holds(NoElement(IS_PROMPT, "true"), VersionDocument(v)) <==> e.v != "true";
      SatisfiesIsAsked(c, Text(e.v));
      assert TagHolds(v.tags, IS_PROMPT, c) <==> Asked(c, Text(e.v));
    } else {
      forall x | x in v.tags ensures x.k != IS_PROMPT {
        var i :| 0 <= i < |v.tags| && v.tags[i] == x;
      }
    }
  }

  /** So "is not true" is always read as meant, and "is false" for every version whose prompt tag, if
      any, is "true" or "false". */
  lemma DefaultPromptFilters(v: Version)
    requires UniqueKeys(v.tags)
    ensures Holds(NoElement(IS_PROMPT, "true"), VersionDocument(v)) <==>
              TagHolds(v.tags, IS_PROMPT, Ne(Text("true"))) || !HasKey(v.tags, IS_PROMPT)
    ensures (Holds(NoElement(IS_PROMPT, "true"), VersionDocument(v)) <==>
              TagHolds(v.tags, IS_PROMPT, Eq(Text("false"))) || !HasKey(v.tags, IS_PROMPT))
            <==> forall e <- v.tags :: e.k == IS_PROMPT ==> e.v == "true" || e.v == "false"
  {
    PromptExclusionMeaning(v, Ne(Text("true")));
    PromptExclusionMeaning(v, Eq(Text("false")));
    assert "true"[0] != "false"[0];
  }
}
