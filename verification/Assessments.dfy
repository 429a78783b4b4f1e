/** Assessments of traces: the queryable aggregate value and the override flag. */
module Assessments {
  import opened Wrappers
  import opened ArrayOperations

  /** A feedback or expectation value, by the cases the aggregate value distinguishes. */
  datatype Value = Flag(b: bool) | Number(x: real) | NonFinite | Text(s: string) | Other

  /** The content fields the repository logic reads; the rest is payload. */
  datatype Content = Content(
    feedback: Option<Value>,
    expectation: Option<Value>,
    valid: bool,
    overrides: Option<string>,
    metadata: map<string, string>,
    rationale: Option<string>)

  datatype Assessment = Assessment(traceId: nat, content: Content, aggregate: Option<real>)

  /** The fields of one update_assessment call. */
  datatype Patch = Patch(
    feedback: Option<Value>,
    expectation: Option<Value>,
    metadata: Option<map<string, string>>,
    rationale: Option<string>)

  /** _assessment_aggregate_value; `normalize` is strip-and-lowercase. */
  function AggregateValue(normalize: string -> string, feedback: Option<Value>, expectation: Option<Value>)
      : Option<real>
  {
    var value := if feedback.Some? then feedback else expectation;
    match value
    case Some(Flag(b)) => Some(if b then 1.0 else 0.0)
    case Some(Number(x)) => Some(x)
    case Some(Text(s)) =>
      if normalize(s) == "yes" then Some(1.0) else if normalize(s) == "no" then Some(0.0) else None
    case _ => None
  }

  function Applied(c: Content, p: Patch): Content {
    c.(feedback := if p.feedback.Some? then p.feedback else c.feedback,
       expectation := if p.expectation.Some? then p.expectation else c.expectation,
       metadata := if p.metadata.Some? then c.metadata + p.metadata.value else c.metadata,
       rationale := if p.rationale.Some? then p.rationale else c.rationale)
  }

  /** The update pipeline: the aggregate is recomputed from the patch alone, and only if the patch
      carries a value. */
  function Update(normalize: string -> string, a: Assessment, p: Patch): Assessment {
    a.(content := Applied(a.content, p),
       aggregate := if p.feedback.Some? || p.expectation.Some?
                    then AggregateValue(normalize, p.feedback, p.expectation) else a.aggregate)
  }

  /** The store's checks before an update. */
  predicate PatchAllowed(c: Content, p: Patch) {
    && !(p.feedback.Some? && p.expectation.Some?)
    && (p.feedback.Some? ==> c.feedback.Some?)
    && (p.expectation.Some? ==> c.expectation.Some?)
  }

  /** An assessment is a feedback or an expectation. */
  predicate OneKind(content: Content) {
    !(content.feedback.Some? && content.expectation.Some?)
  }

  type Collection = map<string, Assessment>

  /** A stored assessment holds one kind of value, and its aggregate is that of its content. */
  ghost predicate AggregatesMatch(normalize: string -> string, c: Collection) {
    forall id <- c ::
      && OneKind(c[id].content)
      && c[id].aggregate == AggregateValue(normalize, c[id].content.feedback, c[id].content.expectation)
  }

  /** An assessment is valid exactly when no stored assessment overrides it. */
  ghost predicate ValidMatches(c: Collection) {
    forall id <- c :: c[id].content.valid <==> !Overridden(c, id)
  }

  ghost predicate Overridden(c: Collection, id: string) {
    exists y <- c :: Overrides(c, y, id)
  }

  /** The overriding assessment lives in the same trace: the flag update filters on the trace. */
  ghost predicate Overrides(c: Collection, y: string, id: string)
    requires y in c
  {
    c[y].content.overrides == Some(id) && id in c && c[id].traceId == c[y].traceId
  }

  function SetValid(c: Collection, traceId: nat, id: string, valid: bool): Collection {
    if id in c && c[id].traceId == traceId
    then c[id := c[id].(content := c[id].content.(valid := valid))] else c
  }

  datatype CreateResult = Created | TargetMissing | AlreadyExists

  /** create_assessment: first the overridden one loses its flag, then the new one is inserted. */
  function Create(normalize: string -> string, c: Collection, traceId: nat, id: string, content: Content)
      : (Collection, CreateResult)
  {
    var c1 := if content.overrides.Some? then SetValid(c, traceId, content.overrides.value, false) else c;
    if content.overrides.Some? && !(content.overrides.value in c && c[content.overrides.value].traceId == traceId)
    then (c1, TargetMissing)
    else if id in c1 then (c1, AlreadyExists)
    else (c1[id := Stored(normalize, traceId, content)], Created)
  }

  /** delete_assessment: the overridden one gets its flag back, then the assessment goes. */
  function Delete(c: Collection, traceId: nat, id: string): Collection {
    if !(id in c && c[id].traceId == traceId) then c
    else
      var c1 := if c[id].content.overrides.Some? then SetValid(c, traceId, c[id].content.overrides.value, true) else c;
      c1 - {id}
  }

  // ---------- what the operations store ----------

  /** The aggregate of a value: a truth value and the texts yes and no count 1 and 0, a finite number
      itself, and nothing else has one. */
  predicate Aggregates(normalize: string -> string, v: Value, aggregate: Option<real>) {
    && (v == Flag(true) ==> aggregate == Some(1.0))
    && (v == Flag(false) ==> aggregate == Some(0.0))
    && (v.Number? ==> aggregate == Some(v.x))
    && (v.Text? && normalize(v.s) == "yes" ==> aggregate == Some(1.0))
    && (v.Text? && normalize(v.s) == "no" ==> aggregate == Some(0.0))
    && (v.Text? && normalize(v.s) != "yes" && normalize(v.s) != "no" ==> aggregate.None?)
    && (v.NonFinite? || v.Other? ==> aggregate.None?)
  }

  /** An aggregate is that of the feedback, without one of the expectation, and missing without either. */
  lemma AggregateMeaning(normalize: string -> string, feedback: Option<Value>, expectation: Option<Value>)
    ensures var a := AggregateValue(normalize, feedback, expectation);
            && (feedback.Some? ==> Aggregates(normalize, feedback.value, a))
            && (feedback.None? && expectation.Some? ==> Aggregates(normalize, expectation.value, a))
            && (feedback.None? && expectation.None? ==> a.None?)
  {}

  /** The validity flag of an assessment is set, and nothing else of it changes. */
  predicate Flagged(before: Assessment, after: Assessment, valid: bool) {
    && after.traceId == before.traceId && after.aggregate == before.aggregate
    && after.content == before.content.(valid := valid)
  }

  /** Creating stores the content under its id and unflags what it overrides; it fails without the
      overridden assessment, changing nothing, or if the id is taken, having unflagged it already. */
  lemma CreateMeaning(normalize: string -> string, c: Collection, traceId: nat, id: string, content: Content)
    ensures var (d, result) := Create(normalize, c, traceId, id, content);
            var o := content.overrides;
            var found := o.Some? && o.value in c && c[o.value].traceId == traceId;
            && (result == TargetMissing <==> o.Some? && !found)
            && (result == AlreadyExists <==> id in c && (o.Some? ==> found))
            && (result == TargetMissing ==> d == c)
            && (found ==> SameBut(c, d, {id, o.value}) && o.value in d)
            && (found && o.value != id ==> Flagged(c[o.value], d[o.value], false))
            && (o.None? ==> SameBut(c, d, {id}))
            && (result == Created ==> id in d && d[id].traceId == traceId && d[id].content == content)
            && (result == AlreadyExists && o != Some(id) ==> d[id] == c[id])
  {}

  /** Updating overwrites the fields of the patch, merges its metadata by key and keeps the rest. */
  lemma UpdateMeaning(normalize: string -> string, a: Assessment, p: Patch)
    ensures var b := Update(normalize, a, p);
            && b.traceId == a.traceId
            && b.content.valid == a.content.valid && b.content.overrides == a.content.overrides
            && (if p.feedback.Some? then b.content.feedback == p.feedback else b.content.feedback == a.content.feedback)
            && (if p.expectation.Some? then b.content.expectation == p.expectation
                else b.content.expectation == a.content.expectation)
            && (if p.rationale.Some? then b.content.rationale == p.rationale
                else b.content.rationale == a.content.rationale)
            && (forall k :: k in b.content.metadata <==>
                  k in a.content.metadata || (p.metadata.Some? && k in p.metadata.value))
            && (forall k <- b.content.metadata :: b.content.metadata[k] ==
                  if p.metadata.Some? && k in p.metadata.value then p.metadata.value[k] else a.content.metadata[k])
            && (p.feedback.Some? ==> Aggregates(normalize, p.feedback.value, b.aggregate))
            && (p.feedback.None? && p.expectation.Some? ==> Aggregates(normalize, p.expectation.value, b.aggregate))
            && (p.feedback.None? && p.expectation.None? ==> b.aggregate == a.aggregate)
  {
    AggregateMeaning(normalize, p.feedback, p.expectation);
  }

  /** A patch is refused exactly if it has both kinds of value or one the assessment does not have. */
  lemma PatchMeaning(c: Content, p: Patch)
    ensures !PatchAllowed(c, p) <==>
              || (p.feedback.Some? && p.expectation.Some?)
              || (p.feedback.Some? && c.feedback.None?)
              || (p.expectation.Some? && c.expectation.None?)
  {}

  /** Deleting removes the assessment of the trace and flags what it overrode. */
  lemma DeleteMeaning(c: Collection, traceId: nat, id: string)
    ensures var d := Delete(c, traceId, id);
            if id in c && c[id].traceId == traceId then
              var o := c[id].content.overrides;
              var found := o.Some? && o.value != id && o.value in c && c[o.value].traceId == traceId;
              && id !in d
              && (found ==> SameBut(c, d, {id, o.value}) && o.value in d && Flagged(c[o.value], d[o.value], true))
              && (!found ==> SameBut(c, d, {id}))
            else d == c
  {}

  /** The aggregate stays the function of the stored content, although updates never read it. */
  lemma AggregatesStayMatched(normalize: string -> string, c: Collection, traceId: nat, id: string, content: Content,
      p: Patch)
    requires AggregatesMatch(normalize, c)
    requires OneKind(content)
    ensures AggregatesMatch(normalize, Create(normalize, c, traceId, id, content).0)
    ensures AggregatesMatch(normalize, Delete(c, traceId, id))
    ensures id in c && PatchAllowed(c[id].content, p) ==>
              AggregatesMatch(normalize, c[id := Update(normalize, c[id], p)])
  {}

  /** Creating under a fresh id keeps the flags right, also when the target is missing. */
  lemma CreateKeepsValid(normalize: string -> string, c: Collection, traceId: nat, id: string, content: Content)
    requires ValidMatches(c) && id !in c && content.valid
    requires forall y <- c :: c[y].content.overrides != Some(id)
    ensures ValidMatches(Create(normalize, c, traceId, id, content).0)
  {
    var (d, result) := Create(normalize, c, traceId, id, content);
    if result.Created? {
      forall x | x in d ensures d[x].content.valid <==> !Overridden(d, x) {
        if x == id {
          assert !Overridden(d, x);
        } else if content.overrides == Some(x) {
          assert Overrides(d, id, x);
        } else {
          if Overridden(c, x) {
            var y :| y in c && Overrides(c, y, x);
            assert Overrides(d, y, x);
          }
          if Overridden(d, x) {
            var y :| y in d && Overrides(d, y, x);
            assert Overrides(c, y, x);
          }
        }
      }
    }
  }

  /** Deleting keeps the flags right exactly when nobody else overrides the same assessment. */
  lemma DeleteKeepsValidExactly(c: Collection, traceId: nat, id: string)
    requires ValidMatches(c) && id in c && c[id].traceId == traceId
    ensures ValidMatches(Delete(c, traceId, id)) <==>
            forall x, y | x in c && y in c && x != id && y != id :: !(Overrides(c, id, x) && Overrides(c, y, x))
  {
    var d := Delete(c, traceId, id);
    forall x, y | x in c && y in c && x != id && y != id ensures Overrides(c, y, x) <==> Overrides(d, y, x) {}
    forall x | x in d
      ensures (d[x].content.valid <==> !Overridden(d, x)) <==>
              (forall y | y in c && y != id :: !(Overrides(c, id, x) && Overrides(c, y, x)))
    {
      if Overrides(c, id, x) {
        assert d[x].content.valid;
      } else if Overridden(c, x) {
        var y :| y in c && Overrides(c, y, x);
        assert Overrides(d, y, x);
      }
      if Overridden(d, x) {
        var y :| y in d && Overrides(d, y, x);
        assert Overrides(c, y, x);
      }
    }
  }

  /** Two overrides of one assessment: deleting either makes it valid while still overridden. */
  lemma DoubleOverrideBreaksValid(normalize: string -> string, t: nat, x: string, y: string, z: string, plain: Content)
    requires x != y && y != z && z != x && plain.valid && plain.overrides.None?
    ensures var c := OverriddenTwice(normalize, t, x, y, z, plain);
            ValidMatches(c) && !ValidMatches(Delete(c, t, y))
  {
    var c := OverriddenTwice(normalize, t, x, y, z, plain);
    assert c.Keys == {x, y, z};
    assert Overrides(c, y, x) && Overrides(c, z, x);
    DeleteKeepsValidExactly(c, t, y);
  }

  /** Three creations, the second and third overriding the first. */
  function OverriddenTwice(normalize: string -> string, t: nat, x: string, y: string, z: string, plain: Content)
    : Collection
  {
    var over := plain.(overrides := Some(x));
    var c := Create(normalize, Create(normalize, map[], t, x, plain).0, t, y, over).0;
    Create(normalize, c, t, z, over).0
  }

  // ---------- assessments supplied with start_trace ----------

  function Stored(normalize: string -> string, traceId: nat, content: Content): Assessment {
    Assessment(traceId, content, AggregateValue(normalize, content.feedback, content.expectation))
  }

  /** The ordered bulk of replacing upserts; it stops at an id that another trace owns. */
  function ReplaceAll(normalize: string -> string, c: Collection, traceId: nat, items: seq<Entry<Content>>)
      : (Collection, bool)
  {
    if items == [] then (c, true)
    else
      var (d, ok) := ReplaceAll(normalize, c, traceId, items[..|items| - 1]);
      var last := items[|items| - 1];
      if !ok || (last.k in d && d[last.k].traceId != traceId) then (d, false)
      else (d[last.k := Stored(normalize, traceId, last.v)], true)
  }

  lemma StoredMeaning(normalize: string -> string, traceId: nat, content: Content)
    ensures var a := Stored(normalize, traceId, content);
            && a.traceId == traceId && a.content == content
            && a.aggregate == AggregateValue(normalize, content.feedback, content.expectation)
  {}

  ghost function StoredAll(normalize: string -> string, traceId: nat, contents: map<string, Content>): Collection {
    map id <- contents :: Stored(normalize, traceId, contents[id])
  }

  /** No supplied assessment is stored under another trace. */
  ghost predicate AllOwned(c: Collection, traceId: nat, items: seq<Entry<Content>>) {
    forall e <- items :: e.k in c ==> c[e.k].traceId == traceId
  }

  /** What the bulk has touched so far belongs to the trace. */
  ghost predicate OnlyOwn(c: Collection, d: Collection, traceId: nat) {
    && (forall id <- c :: id in d && d[id].traceId == c[id].traceId)
    && (forall id <- c :: c[id].traceId != traceId ==> d[id] == c[id])
    && (forall id <- d :: id !in c ==> d[id].traceId == traceId)
  }

  lemma {:induction false} ReplaceAllTouchesOwn(normalize: string -> string, c: Collection, traceId: nat,
                                                items: seq<Entry<Content>>)
    ensures OnlyOwn(c, ReplaceAll(normalize, c, traceId, items).0, traceId)
  {
    if items != [] { ReplaceAllTouchesOwn(normalize, c, traceId, items[..|items| - 1]); }
  }

  lemma {:induction false} ReplaceAllSucceeds(normalize: string -> string, c: Collection, traceId: nat,
                                              items: seq<Entry<Content>>)
    ensures ReplaceAll(normalize, c, traceId, items).1 <==> AllOwned(c, traceId, items)
  {
    if items != [] {
      var init, last := items[..|items| - 1], items[|items| - 1];
      assert items == init + [last];
      ReplaceAllSucceeds(normalize, c, traceId, init);
      ReplaceAllTouchesOwn(normalize, c, traceId, init);
      AllOwnedSnoc(c, traceId, init, last);
    }
  }

  lemma {:induction false} ReplaceAllStores(normalize: string -> string, c: Collection, traceId: nat,
                                            items: seq<Entry<Content>>)
    requires ReplaceAll(normalize, c, traceId, items).1
    ensures ReplaceAll(normalize, c, traceId, items).0 == c + StoredAll(normalize, traceId, AsMap(items))
  {
    if items == [] {
      assert c + StoredAll(normalize, traceId, AsMap(items)) == c;
    } else {
      var init, last := items[..|items| - 1], items[|items| - 1];
      ReplaceAllStores(normalize, c, traceId, init);
      StoredAllPut(normalize, traceId, AsMap(init), last);
    }
  }

  /** The bulk succeeds exactly if no other trace owns one of the ids; then each has the content
      supplied last for it, and every other assessment is untouched. */
  lemma ReplaceAllMeaning(normalize: string -> string, c: Collection, traceId: nat, items: seq<Entry<Content>>)
    ensures var (d, ok) := ReplaceAll(normalize, c, traceId, items);
            && (ok <==> AllOwned(c, traceId, items))
            && (ok ==> d == c + StoredAll(normalize, traceId, AsMap(items)))
            && OnlyOwn(c, d, traceId)
  {
    ReplaceAllSucceeds(normalize, c, traceId, items);
    ReplaceAllTouchesOwn(normalize, c, traceId, items);
    if ReplaceAll(normalize, c, traceId, items).1 { ReplaceAllStores(normalize, c, traceId, items); }
  }

  lemma AllOwnedSnoc(c: Collection, traceId: nat, items: seq<Entry<Content>>, e: Entry<Content>)
    ensures AllOwned(c, traceId, items + [e]) <==>
              AllOwned(c, traceId, items) && (e.k in c ==> c[e.k].traceId == traceId)
  {}

  lemma StoredAllPut(normalize: string -> string, traceId: nat, m: map<string, Content>, e: Entry<Content>)
    ensures StoredAll(normalize, traceId, m[e.k := e.v])
         == StoredAll(normalize, traceId, m)[e.k := Stored(normalize, traceId, e.v)]
  {}

  /** Replacing keeps every aggregate that of its content, also when the bulk stops half-way. */
  lemma {:induction false} ReplaceAllKeepsAggregates(normalize: string -> string, c: Collection, traceId: nat,
      items: seq<Entry<Content>>)
    requires AggregatesMatch(normalize, c) && forall e <- items :: OneKind(e.v)
    ensures AggregatesMatch(normalize, ReplaceAll(normalize, c, traceId, items).0)
  {
    if items != [] {
      assert forall e <- items[..|items| - 1] :: e in items;
      ReplaceAllKeepsAggregates(normalize, c, traceId, items[..|items| - 1]);
    }
  }

  // ---------- whole runs ----------

  datatype Op =
    | DoCreate(traceId: nat, id: string, content: Content)
    | DoUpdate(traceId: nat, id: string, patch: Patch)
    | DoDelete(traceId: nat, id: string)
    | DoReplace(traceId: nat, supplied: seq<Entry<Content>>)

  function Apply(normalize: string -> string, c: Collection, op: Op): Collection {
    match op
    case DoCreate(traceId, id, content) => Create(normalize, c, traceId, id, content).0
    case DoUpdate(traceId, id, patch) =>
      if id in c && c[id].traceId == traceId && PatchAllowed(c[id].content, patch)
      then c[id := Update(normalize, c[id], patch)] else c
    case DoDelete(traceId, id) => Delete(c, traceId, id)
    case DoReplace(traceId, supplied) => ReplaceAll(normalize, c, traceId, LastOfEach(supplied)).0
  }

  ghost function Run(normalize: string -> string, c: Collection, ops: seq<Op>): Collection
    decreases |ops|
  {
    if ops == [] then c else Run(normalize, Apply(normalize, c, ops[0]), ops[1..])
  }

  /** New contents are of one kind, as the entities they come from are. */
  predicate WellKinded(op: Op) {
    match op
    case DoCreate(_, _, content) => OneKind(content)
    case DoReplace(_, supplied) => forall e <- supplied :: OneKind(e.v)
    case _ => true
  }

  lemma StepKeepsAggregates(normalize: string -> string, c: Collection, op: Op)
    requires AggregatesMatch(normalize, c) && WellKinded(op)
    ensures AggregatesMatch(normalize, Apply(normalize, c, op))
  {
    if op.DoReplace? {
      forall e | e in LastOfEach(op.supplied) ensures OneKind(e.v) { LastOfEachSelects(op.supplied, e); }
      ReplaceAllKeepsAggregates(normalize, c, op.traceId, LastOfEach(op.supplied));
    }
  }

  /** Over every run of creations, updates, deletions and replacements, whatever the ids and overrides,
      the stored aggregates are the function of the stored contents. */
  lemma {:induction false} RunKeepsAggregates(normalize: string -> string, c: Collection, ops: seq<Op>)
    requires AggregatesMatch(normalize, c) && forall op <- ops :: WellKinded(op)
    ensures AggregatesMatch(normalize, Run(normalize, c, ops))
    decreases |ops|
  {
    if ops != [] {
      assert ops[0] in ops && forall op <- ops[1..] :: op in ops;
      StepKeepsAggregates(normalize, c, ops[0]);
      RunKeepsAggregates(normalize, Apply(normalize, c, ops[0]), ops[1..]);
    }
  }

  /** New assessments come valid under an id nothing is stored under or refers to, and none is replaced. */
  ghost predicate Fresh(c: Collection, op: Op) {
    && !op.DoReplace?
    && (op.DoCreate? ==> op.id !in c && op.content.valid && forall y <- c :: c[y].content.overrides != Some(op.id))
  }

  ghost predicate OverriddenOnce(c: Collection) {
    forall x, y, z | x in c && y in c && z in c && Overrides(c, y, x) && Overrides(c, z, x) :: y == z
  }

  ghost predicate Proper(normalize: string -> string, c: Collection, ops: seq<Op>)
    decreases |ops|
  {
    ops == [] || (Fresh(c, ops[0]) && OverriddenOnce(c) && Proper(normalize, Apply(normalize, c, ops[0]), ops[1..]))
  }

  lemma UpdateKeepsValid(normalize: string -> string, c: Collection, id: string, p: Patch)
    requires ValidMatches(c) && id in c
    ensures ValidMatches(c[id := Update(normalize, c[id], p)])
  {
    var d := c[id := Update(normalize, c[id], p)];
    forall x, y | y in c ensures Overrides(c, y, x) <==> Overrides(d, y, x) {}
    forall x | x in d ensures d[x].content.valid <==> !Overridden(d, x) {
      if Overridden(c, x) {
        var y :| y in c && Overrides(c, y, x);
        assert Overrides(d, y, x);
      }
      if Overridden(d, x) {
        var y :| y in d && Overrides(d, y, x);
        assert Overrides(c, y, x);
      }
    }
  }

  lemma StepKeepsFlags(normalize: string -> string, c: Collection, op: Op)
    requires ValidMatches(c) && Fresh(c, op) && OverriddenOnce(c)
    ensures ValidMatches(Apply(normalize, c, op))
  {
    match op {
      case DoCreate(traceId, id, content) => CreateKeepsValid(normalize, c, traceId, id, content);
      case DoUpdate(traceId, id, patch) => if id in c { UpdateKeepsValid(normalize, c, id, patch); }
      case DoDelete(traceId, id) => if id in c && c[id].traceId == traceId { DeleteKeepsValidExactly(c, traceId, id); }
      case DoReplace(_, _) =>
    }
  }

  /** Over every run of creations under fresh ids, updates and deletions in which no assessment is
      overridden twice, an assessment is valid exactly if no stored one overrides it. */
  lemma {:induction false} RunKeepsFlags(normalize: string -> string, c: Collection, ops: seq<Op>)
    requires ValidMatches(c) && Proper(normalize, c, ops)
    ensures ValidMatches(Run(normalize, c, ops))
    decreases |ops|
  {
    if ops != [] {
      StepKeepsFlags(normalize, c, ops[0]);
      RunKeepsFlags(normalize, Apply(normalize, c, ops[0]), ops[1..]);
    }
  }
}
