/** Registry operations of many clients, interleaved between their single-document updates: creation
    allocates a number and then inserts, deletion marks a version and then pulls its aliases, an alias
    is checked and then written, a transition moves a version and then archives the others, and
    deleting a model is followed by deleting its versions. */
module RegistryConcurrency {
  import opened Wrappers
  import opened ArrayOperations
  import opened Registry

  /** What a client still has to do. */
  datatype Task =
    | Allocating(id: nat, v: Version)
    | Inserting(id: nat, n: nat, v: Version)
    | Deleting(id: nat, n: nat, now: int)
    | Pulling(id: nat, n: nat)
    | Aliasing(name: string, alias: string, n: nat)
    | Moving(id: nat, n: nat, stage: Stage, archive: bool, now: int)
    | Archiving(id: nat, n: nat, stage: Stage, now: int)
    | Dropping(id: nat)

  /** The collections, the clients' tasks, and a record of the numbers handed out for each model. */
  datatype System = System(db: State, tasks: multiset<Task>, issued: map<nat, seq<nat>>)

  datatype Step =
    | MakeModel(name: string, tags: seq<Entry<string>>, now: int)
    | Rename(name: string, newName: string, now: int)
    | RemoveModel(name: string)
    | BeginCreate(name: string, v: Version)
    | BeginDelete(name: string, n: nat, now: int)
    | BeginAlias(name: string, alias: string, n: nat)
    | BeginMove(name: string, n: nat, stage: Stage, archive: bool, now: int)
    | RemoveAlias(name: string, alias: string)
    | Continue(t: Task)

  predicate Enabled(s: System, e: Step) {
    match e
    case Continue(t) => t in s.tasks
    case BeginCreate(_, v) => v.stage == NoStage
    case BeginMove(_, _, stage, archive, _) => stage != DeletedInternal &&
        (archive ==> stage == Staging || stage == Production)
    case _ => true
  }

  function WithAliases(db: State, id: nat, aliases: seq<Entry<nat>>): State
    requires id in db.models
  {
    db.(models := db.models[id := db.models[id].(aliases := aliases)])
  }

  /** One client's next atomic update, and what it leaves to do. */
  function Perform(s: System, t: Task): (State, Option<Task>) {
    var db := s.db;
    match t
    case Allocating(id, v) =>
      if id in db.models then
        var n := db.models[id].counter + 1;
        (db.(models := db.models[id := db.models[id].(counter := n, updated := v.updated)]), Some(Inserting(id, n, v)))
      else (db, None)
    case Inserting(id, n, v) =>
      if (id, n) in db.versions then (db, None) else (db.(versions := db.versions[(id, n) := v]), None)
    case Deleting(id, n, now) =>
      if Live(db.versions, id, n)
      then (db.(versions := db.versions[(id, n) := Redact(db.versions[(id, n)], now)]), Some(Pulling(id, n)))
      else (db, None)
    case Pulling(id, n) =>
      if id in db.models then (WithAliases(db, id, PullVersion(db.models[id].aliases, n)), None) else (db, None)
    case Aliasing(name, alias, n) =>
      if name in db.names && db.names[name] in db.models
      then (WithAliases(db, db.names[name], Merge(db.models[db.names[name]].aliases, [Entry(alias, n)])), None)
      else (db, None)
    case Moving(id, n, stage, archive, now) =>
      if Live(db.versions, id, n)
      then (db.(versions := db.versions[(id, n) := db.versions[(id, n)].(stage := stage, updated := now)]),
            if archive then Some(Archiving(id, n, stage, now)) else None)
      else (db, None)
    case Archiving(id, n, stage, now) => (db.(versions := ArchiveOthers(db.versions, id, n, stage, now)), None)
    case Dropping(id) => (db.(versions := DropAll(db.versions, id)), None)
  }

  function Note(issued: map<nat, seq<nat>>, id: nat, n: nat): map<nat, seq<nat>> {
    issued[id := (if id in issued then issued[id] else []) + [n]]
  }

  /** The task a request starts with. */
  function FirstTask(s: System, e: Step): Option<Task> {
    match e
    case BeginCreate(name, v) => if name in s.db.names then Some(Allocating(s.db.names[name], v)) else None
    case BeginDelete(name, n, now) => if name in s.db.names then Some(Deleting(s.db.names[name], n, now)) else None
    case BeginAlias(name, alias, n) =>
      if name in s.db.names && Live(s.db.versions, s.db.names[name], n) then Some(Aliasing(name, alias, n)) else None
    case BeginMove(name, n, stage, archive, now) =>
      if name in s.db.names then Some(Moving(s.db.names[name], n, stage, archive, now)) else None
    case _ => None
  }

  function Bag(t: Option<Task>): multiset<Task> {
    if t.Some? then multiset{t.value} else multiset{}
  }

  function Apply(s: System, e: Step): System
    requires Enabled(s, e)
  {
    var db := s.db;
    match e
    case MakeModel(name, tags, now) =>
      var t := CreateModel(db, name, tags, now);
      System(t.0, s.tasks, if t.1 == Done then s.issued[db.nextId := []] else s.issued)
    case Rename(name, newName, now) =>
      if name !in db.names || (newName in db.names && newName != name) then s
      else s.(db := db.(names := (db.names - {name})[newName := db.names[name]]))
    case RemoveModel(name) =>
      if name !in db.names then s
      else
        var id := db.names[name];
        System(db.(names := db.names - {name}, models := db.models - {id}), s.tasks + multiset{Dropping(id)}, s.issued)
    case RemoveAlias(name, alias) =>
      if name in db.names && db.names[name] in db.models
      then s.(db := WithAliases(db, db.names[name], Pull(db.models[db.names[name]].aliases, alias)))
      else s
    case Continue(t) =>
      var (next, todo) := Perform(s, t);
      var tasks := s.tasks - multiset{t} + Bag(todo);
      System(next, tasks, if todo.Some? && todo.value.Inserting? then Note(s.issued, todo.value.id, todo.value.n)
          else s.issued)
    case _ => s.(tasks := s.tasks + Bag(FirstTask(s, e)))
  }

  ghost predicate IsRun(s: System, steps: seq<Step>, t: System)
    decreases |steps|
  {
    if steps == [] then s == t
    else Enabled(s, steps[0]) && IsRun(Apply(s, steps[0]), steps[1..], t)
  }

  const START := System(EMPTY, multiset{}, map[])

  // ---------- numbering ----------

  ghost predicate Issued(s: System, id: nat, n: nat) {
    id in s.issued && 1 <= n <= |s.issued[id]|
  }

  ghost predicate InFlight(tasks: multiset<Task>, id: nat, n: nat) {
    exists v :: Inserting(id, n, v) in tasks
  }

  ghost predicate Numbered(s: System) {
    && (forall id :: id in s.issued ==> id < s.db.nextId && forall i :: 0 <= i < |s.issued[id]| ==>
        s.issued[id][i] == i + 1)
    && (forall id :: id in s.db.models ==> id in s.issued && |s.issued[id]| == s.db.models[id].counter)
    && (forall k :: k in s.db.versions ==> Issued(s, k.0, k.1))
  }

  ghost predicate InsertsAreNew(s: System) {
    && (forall t :: t in s.tasks && t.Inserting? ==>
        Issued(s, t.id, t.n) && (t.id, t.n) !in s.db.versions && s.tasks[t] == 1)
    && (forall t, u :: t in s.tasks && u in s.tasks && t.Inserting? && u.Inserting? && t.id == u.id && t.n == u.n ==>
        t == u)
  }

  /** Every number handed out for an existing model is stored or about to be. */
  ghost predicate NothingLost(s: System) {
    forall id: nat, n: nat :: id in s.db.models && Issued(s, id, n) ==>
        (id, n) in s.db.versions || InFlight(s.tasks, id, n)
  }

  predicate TaskOk(t: Task, nextId: nat) {
    && (!t.Aliasing? ==> t.id < nextId)
    && (t.Allocating? || t.Inserting? ==> t.v.stage == NoStage)
    && (t.Moving? ==> t.stage != DeletedInternal && (t.archive ==> t.stage == Staging || t.stage == Production))
    && (t.Archiving? ==> t.stage == Staging || t.stage == Production)
  }

  ghost predicate TasksOk(s: System) {
    && (forall t :: t in s.tasks ==> TaskOk(t, s.db.nextId))
    && (forall t :: t in s.tasks && t.Dropping? ==> t.id !in s.db.models)
  }

  ghost predicate Inv(s: System) {
    IndexOk(s.db) && Numbered(s) && InsertsAreNew(s) && NothingLost(s) && TasksOk(s)
  }

  /** A step that leaves numbers, ids and documents in place, whatever it writes into them, and adds
      no insertion. */
  ghost predicate Quiet(s: System, t: System) {
    t.issued == s.issued && QuietData(s.db, t.db) && QuietTasks(s.tasks, t.tasks, s.db.nextId)
  }

  ghost predicate QuietData(s: State, t: State) {
    && t.nextId == s.nextId
    && t.models.Keys == s.models.Keys && t.versions.Keys == s.versions.Keys
    && (forall id :: id in s.models ==> t.models[id].counter == s.models[id].counter)
  }

  ghost predicate QuietTasks(s: multiset<Task>, t: multiset<Task>, nextId: nat) {
    && (forall x :: x in t && x !in s ==> !x.Inserting? && !x.Dropping? && TaskOk(x, nextId))
    && (forall x :: x in s && x.Inserting? ==> t[x] == s[x])
  }

  /** One task is finished, another perhaps taken up. */
  lemma QuietExchange(s: multiset<Task>, done: Option<Task>, todo: Option<Task>, t: multiset<Task>, nextId: nat)
    requires done.Some? ==> done.value in s && !done.value.Inserting?
    requires todo.Some? ==> !todo.value.Inserting? && !todo.value.Dropping? && TaskOk(todo.value, nextId)
    requires t == s - Bag(done) + Bag(todo)
    ensures QuietTasks(s, t, nextId)
  {}

  lemma QuietKeepsInv(s: System, t: System)
    requires Inv(s) && Quiet(s, t) && IndexOk(t.db)
    ensures Inv(t)
  {
    assert Numbered(t) by {
      forall k | k in t.db.versions ensures Issued(t, k.0, k.1) { assert Issued(s, k.0, k.1); }
    }
    assert InsertsAreNew(t) by {
      forall x | x in t.tasks && x.Inserting? ensures Issued(t, x.id, x.n) { assert x in s.tasks; }
    }
    assert NothingLost(t) by {
      forall id: nat, n: nat | id in t.db.models && Issued(t, id, n) && (id, n) !in t.db.versions
          ensures InFlight(t.tasks, id, n) {
        assert Issued(s, id, n);
        var v :| Inserting(id, n, v) in s.tasks;
        assert t.tasks[Inserting(id, n, v)] > 0;
      }
    }
    assert TasksOk(t);
  }

  predicate TouchesDocuments(t: Task) {
    t.Allocating? || t.Inserting? || t.Dropping?
  }

  lemma SameIndex(s: State, t: State)
    requires IndexOk(s) && t.names == s.names && t.models.Keys == s.models.Keys && t.nextId == s.nextId
    ensures IndexOk(t)
  {}

  lemma QuietTaskData(s: System, t: Task)
    requires !TouchesDocuments(t)
    ensures QuietData(s.db, Perform(s, t).0) && Perform(s, t).0.names == s.db.names
  {}

  lemma QuietTask(s: System, t: Task)
    requires TasksOk(s) && t in s.tasks && !TouchesDocuments(t)
    ensures Quiet(s, Apply(s, Continue(t))) && Apply(s, Continue(t)).db.names == s.db.names
  {
    QuietTaskData(s, t);
    assert TaskOk(t, s.db.nextId);
    var todo := Perform(s, t).1;
    assert todo.Some? ==> !todo.value.Inserting? && !todo.value.Dropping? && TaskOk(todo.value, s.db.nextId);
    var u := Apply(s, Continue(t));
    QuietExchange(s.tasks, Some(t), todo, u.tasks, s.db.nextId);
  }

  /** An allocation whose model is gone. */
  lemma LateAllocation(s: System, t: Task)
    requires Inv(s) && t in s.tasks && t.Allocating? && t.id !in s.db.models
    ensures Quiet(s, Apply(s, Continue(t))) && IndexOk(Apply(s, Continue(t)).db)
  {}

  lemma QuietRename(s: System, e: Step)
    requires Inv(s) && e.Rename?
    ensures Quiet(s, Apply(s, e)) && IndexOk(Apply(s, e).db)
  {}

  lemma FirstTaskOk(s: System, e: Step)
    requires IndexOk(s.db) && Enabled(s, e) && FirstTask(s, e).Some?
    ensures var t := FirstTask(s, e).value; !t.Inserting? && !t.Dropping? && TaskOk(t, s.db.nextId)
  {}

  lemma QuietStep(s: System, e: Step)
    requires IndexOk(s.db) && Enabled(s, e) && !e.Continue? && !e.MakeModel? && !e.RemoveModel? && !e.Rename?
    ensures Quiet(s, Apply(s, e)) && Apply(s, e).db.names == s.db.names
  {
    var todo := FirstTask(s, e);
    if todo.Some? { FirstTaskOk(s, e); }
    QuietExchange(s.tasks, None, todo, s.tasks + Bag(todo), s.db.nextId);
    if e.RemoveAlias? {
      assert todo == None && QuietData(s.db, Apply(s, e).db);
    } else {
      assert Apply(s, e) == s.(tasks := s.tasks + Bag(todo));
    }
  }

  lemma MakeModelKeepsInv(s: System, e: Step)
    requires Inv(s) && e.MakeModel?
    ensures Inv(Apply(s, e))
  {
    var t := Apply(s, e);
    if e.name !in s.db.names {
      forall id: nat, n: nat ensures Issued(t, id, n) <==> Issued(s, id, n) {}
      assert IndexOk(t.db);
      assert Numbered(t);
      assert InsertsAreNew(t);
      assert NothingLost(t);
      assert TasksOk(t);
    }
  }

  lemma RemoveModelKeepsInv(s: System, e: Step)
    requires Inv(s) && e.RemoveModel?
    ensures Inv(Apply(s, e))
  {
    var t := Apply(s, e);
    RemovalKeepsIndex(s, e);
    assert Numbered(t);
    assert InsertsAreNew(t);
    assert NothingLost(t);
    assert TasksOk(t);
  }

  lemma RemovalKeepsIndex(s: System, e: Step)
    requires IndexOk(s.db) && e.RemoveModel?
    ensures IndexOk(Apply(s, e).db)
  {}

  lemma AllocateKeepsInv(s: System, t: Task)
    requires Inv(s) && t in s.tasks && t.Allocating? && t.id in s.db.models
    ensures Inv(Apply(s, Continue(t)))
  {
    var u := Apply(s, Continue(t));
    var n := s.db.models[t.id].counter + 1;
    var x := Inserting(t.id, n, t.v);
    assert u.tasks == s.tasks - multiset{t} + multiset{x};
    forall i: nat, m: nat ensures Issued(u, i, m) <==> Issued(s, i, m) || (i == t.id && m == n) {}
    assert !Issued(s, t.id, n);
    SameIndex(s.db, u.db);
    assert Numbered(u);
    AllocationIsNew(s, u, t, x);
    AllocationIsInFlight(s, u, t, x);
  }

  lemma AllocationIsInFlight(s: System, u: System, t: Task, x: Task)
    requires NothingLost(s) && TasksOk(s) && t in s.tasks && t.Allocating? && x.Inserting? && x.id == t.id && x.v == t.v
    requires u.tasks == s.tasks - multiset{t} + multiset{x}
    requires u.db.versions == s.db.versions && u.db.models.Keys == s.db.models.Keys && u.db.nextId == s.db.nextId
    requires forall i: nat, m: nat :: Issued(u, i, m) ==> Issued(s, i, m) || (i == x.id && m == x.n)
    ensures NothingLost(u) && TasksOk(u)
  {
    assert TaskOk(t, s.db.nextId);
    assert x in u.tasks;
    forall i: nat, m: nat | i in u.db.models && Issued(u, i, m) && (i, m) !in u.db.versions
        ensures InFlight(u.tasks, i, m) {
      if i == x.id && m == x.n {
        assert Inserting(i, m, t.v) in u.tasks;
      } else {
        var v :| Inserting(i, m, v) in s.tasks;
        assert Inserting(i, m, v) in u.tasks;
      }
    }
  }

  lemma AllocationIsNew(s: System, u: System, t: Task, x: Task)
    requires InsertsAreNew(s) && !t.Inserting? && x.Inserting? && u.tasks == s.tasks - multiset{t} + multiset{x}
    requires u.db.versions == s.db.versions && (x.id, x.n) !in s.db.versions
    requires !Issued(s, x.id, x.n) && Issued(u, x.id, x.n)
    requires forall i: nat, m: nat :: Issued(s, i, m) ==> Issued(u, i, m)
    ensures InsertsAreNew(u)
  {
    assert x !in s.tasks;
    forall y | y in u.tasks && y.Inserting? && y != x ensures y in s.tasks && u.tasks[y] == s.tasks[y] {}
  }

  lemma InsertKeepsInv(s: System, t: Task)
    requires Inv(s) && t in s.tasks && t.Inserting?
    ensures Inv(Apply(s, Continue(t)))
  {
    var u := Apply(s, Continue(t));
    assert u.tasks == s.tasks - multiset{t} + Bag(None);
    SameIndex(s.db, u.db);
    InsertLosesNothing(s, t);
    assert Numbered(u);
    assert InsertsAreNew(u);
    assert TasksOk(u);
  }

  lemma InsertLosesNothing(s: System, t: Task)
    requires NothingLost(s) && InsertsAreNew(s) && t in s.tasks && t.Inserting?
    ensures NothingLost(Apply(s, Continue(t)))
  {
    var u := Apply(s, Continue(t));
    assert u.tasks == s.tasks - multiset{t} + Bag(None);
    forall id: nat, n: nat | id in u.db.models && Issued(u, id, n) && (id, n) !in u.db.versions
      ensures InFlight(u.tasks, id, n)
    {
      assert Issued(s, id, n) && (id, n) !in s.db.versions;
      var v :| Inserting(id, n, v) in s.tasks;
      assert Inserting(id, n, v) in u.tasks;
    }
  }

  lemma DropKeepsInv(s: System, t: Task)
    requires Inv(s) && t in s.tasks && t.Dropping?
    ensures Inv(Apply(s, Continue(t)))
  {
    var u := Apply(s, Continue(t));
    assert u.tasks == s.tasks - multiset{t} + Bag(None);
    SameIndex(s.db, u.db);
    DropLosesNothing(s, t);
    assert Numbered(u);
    assert InsertsAreNew(u);
    assert TasksOk(u);
  }

  lemma DropLosesNothing(s: System, t: Task)
    requires NothingLost(s) && TasksOk(s) && t in s.tasks && t.Dropping?
    ensures NothingLost(Apply(s, Continue(t)))
  {
    var u := Apply(s, Continue(t));
    assert u.tasks == s.tasks - multiset{t} + Bag(None);
    forall id: nat, n: nat | id in u.db.models && Issued(u, id, n) && (id, n) !in u.db.versions
      ensures InFlight(u.tasks, id, n)
    {
      assert Issued(s, id, n) && (id, n) !in s.db.versions;
      var v :| Inserting(id, n, v) in s.tasks;
      assert Inserting(id, n, v) in u.tasks;
    }
  }

  lemma StepKeepsInv(s: System, e: Step)
    requires Inv(s) && Enabled(s, e)
    ensures Inv(Apply(s, e))
  {
    if e.MakeModel? { MakeModelKeepsInv(s, e); }
    else if e.RemoveModel? { RemoveModelKeepsInv(s, e); }
    else if e.Rename? { QuietRename(s, e); QuietKeepsInv(s, Apply(s, e)); }
    else if !e.Continue? { QuietStep(s, e); SameIndex(s.db, Apply(s, e).db); QuietKeepsInv(s, Apply(s, e)); }
    else if e.t.Inserting? { InsertKeepsInv(s, e.t); }
    else if e.t.Dropping? { DropKeepsInv(s, e.t); }
    else if e.t.Allocating? && e.t.id in s.db.models { AllocateKeepsInv(s, e.t); }
    else if e.t.Allocating? { LateAllocation(s, e.t); QuietKeepsInv(s, Apply(s, e)); }
    else { QuietTask(s, e.t); SameIndex(s.db, Apply(s, e).db); QuietKeepsInv(s, Apply(s, e)); }
  }

  lemma {:induction false} RunKeepsInv(s: System, steps: seq<Step>, t: System)
    requires Inv(s) && IsRun(s, steps, t)
    ensures Inv(t)
    decreases |steps|
  {
    if steps != [] {
      StepKeepsInv(s, steps[0]);
      RunKeepsInv(Apply(s, steps[0]), steps[1..], t);
    }
  }

  // ---------- version numbers ----------

  ghost predicate NoneInserting(tasks: multiset<Task>) {
    forall t :: t in tasks ==> !t.Inserting?
  }

  /** In every interleaving the numbers handed out for a model are 1, 2, 3, ... up to its counter, in
      that order and each once; no stored version has a higher one; and once no insertion is under way
      the stored versions are exactly those numbers. */
  lemma NumbersAreConsecutive(steps: seq<Step>, t: System, id: nat)
    requires IsRun(START, steps, t) && id in t.db.models
    ensures id in t.issued && t.issued[id] == seq(t.db.models[id].counter, i => i + 1)
    ensures forall n: nat :: (id, n) in t.db.versions ==> 1 <= n <= t.db.models[id].counter
    ensures NoneInserting(t.tasks) ==> forall n: nat :: (id, n) in t.db.versions <==> 1 <= n <= t.db.models[id].counter
  {
    RunKeepsInv(START, steps, t);
    forall n: nat | (id, n) in t.db.versions ensures 1 <= n <= t.db.models[id].counter { assert Issued(t, id, n); }
    if NoneInserting(t.tasks) {
      forall n: nat | 1 <= n <= t.db.models[id].counter ensures (id, n) in t.db.versions { assert Issued(t, id, n); }
    }
  }

  /** The unique index never rejects an allocated version: the error branch is unreachable. */
  lemma InsertNeverCollides(steps: seq<Step>, t: System, x: Task)
    requires IsRun(START, steps, t) && x in t.tasks && x.Inserting?
    ensures (x.id, x.n) !in t.db.versions
  {
    RunKeepsInv(START, steps, t);
  }

  // ---------- deletion is final ----------

  /** The number has been used and its version is not live and not to be inserted. */
  ghost predicate Spent(s: System, id: nat, n: nat) {
    Issued(s, id, n) && !InFlight(s.tasks, id, n) && !Live(s.db.versions, id, n)
  }

  lemma SpentTask(s: System, t: Task, id: nat, n: nat)
    requires Inv(s) && t in s.tasks && Spent(s, id, n)
    ensures !Live(Perform(s, t).0.versions, id, n)
    ensures Perform(s, t).1.Some? ==> var x := Perform(s, t).1.value; x.Inserting? ==> (x.id, x.n) != (id, n)
  {}

  lemma SpentByTask(s: System, t: Task, id: nat, n: nat)
    requires Inv(s) && t in s.tasks && Spent(s, id, n)
    ensures Spent(Apply(s, Continue(t)), id, n)
  {
    var u, todo := Apply(s, Continue(t)), Perform(s, t).1;
    SpentTask(s, t, id, n);
    assert u.tasks == s.tasks - multiset{t} + Bag(todo);
    forall v ensures Inserting(id, n, v) !in u.tasks {
      assert Inserting(id, n, v) !in s.tasks;
    }
  }

  lemma SpentByRequest(s: System, e: Step, id: nat, n: nat)
    requires IndexOk(s.db) && Numbered(s) && Enabled(s, e) && !e.Continue? && Spent(s, id, n)
    ensures Spent(Apply(s, e), id, n)
  {
    var u := Apply(s, e);
    RequestsKeepVersions(s, e);
    forall v ensures Inserting(id, n, v) !in u.tasks {
      assert Inserting(id, n, v) !in s.tasks;
    }
  }

  lemma SpentStep(s: System, e: Step, id: nat, n: nat)
    requires Inv(s) && Enabled(s, e) && Spent(s, id, n)
    ensures Spent(Apply(s, e), id, n)
  {
    if e.Continue? { SpentByTask(s, e.t, id, n); } else { SpentByRequest(s, e, id, n); }
  }

  lemma DeletedIsSpent(s: System, id: nat, n: nat)
    requires Inv(s) && Deleted(s.db, id, n)
    ensures Spent(s, id, n)
  {
    assert (id, n) in s.db.versions;
    forall v ensures Inserting(id, n, v) !in s.tasks {}
  }

  /** Under any interleaving a soft-deleted version never becomes live again. */
  lemma {:induction false} DeletedIsFinal(s: System, steps: seq<Step>, t: System, id: nat, n: nat)
    requires Inv(s) && IsRun(s, steps, t) && (Deleted(s.db, id, n) || Spent(s, id, n))
    ensures !Live(t.db.versions, id, n)
    decreases |steps|
  {
    if Deleted(s.db, id, n) { DeletedIsSpent(s, id, n); }
    if steps != [] {
      StepKeepsInv(s, steps[0]);
      SpentStep(s, steps[0], id, n);
      DeletedIsFinal(Apply(s, steps[0]), steps[1..], t, id, n);
    }
  }

  // ---------- versions of deleted models ----------

  ghost predicate NoOrphans(s: System) {
    forall k :: k in s.db.versions ==> k.0 in s.db.models || Dropping(k.0) in s.tasks
  }

  /** An insertion after the model's versions have been deleted. */
  predicate LateInsertion(s: System, e: Step) {
    e.Continue? && e.t.Inserting? && e.t.id !in s.db.models && Dropping(e.t.id) !in s.tasks
  }

  lemma OwnedIfKept(s: System, t: System)
    requires NoOrphans(s) && t.db.versions.Keys <= s.db.versions.Keys
    requires forall k :: k in t.db.versions && k.0 in s.db.models ==> k.0 in t.db.models || Dropping(k.0) in t.tasks
    requires forall k :: k in t.db.versions && Dropping(k.0) in s.tasks ==> Dropping(k.0) in t.tasks
    ensures NoOrphans(t)
  {}

  lemma OwnedAfterTask(s: System, t: Task)
    requires TasksOk(s) && t in s.tasks && NoOrphans(s) && !t.Inserting?
    ensures NoOrphans(Apply(s, Continue(t)))
  {
    var u := Apply(s, Continue(t));
    assert u.tasks == s.tasks - multiset{t} + Bag(Perform(s, t).1);
    OwnedIfKept(s, u);
  }

  lemma OwnedAfterRequest(s: System, e: Step)
    requires IndexOk(s.db) && Enabled(s, e) && NoOrphans(s) && !e.Continue?
    ensures NoOrphans(Apply(s, e))
  {
    OwnedIfKept(s, Apply(s, e));
  }

  /** A step leaves a version without its model, and nobody to delete it, exactly if it is a late insertion. */
  lemma OrphansAreLateInsertions(s: System, e: Step)
    requires Inv(s) && Enabled(s, e) && NoOrphans(s)
    ensures NoOrphans(Apply(s, e)) <==> !LateInsertion(s, e)
  {
    if !e.Continue? { OwnedAfterRequest(s, e); }
    else if e.t.Inserting? { OwnedAfterInsertion(s, e.t); }
    else { OwnedAfterTask(s, e.t); }
  }

  lemma OwnedAfterInsertion(s: System, t: Task)
    requires InsertsAreNew(s) && t in s.tasks && NoOrphans(s) && t.Inserting?
    ensures NoOrphans(Apply(s, Continue(t))) <==> !LateInsertion(s, Continue(t))
  {
    var u := Apply(s, Continue(t));
    assert u.tasks == s.tasks - multiset{t} + Bag(None);
    assert forall id :: Dropping(id) in u.tasks <==> Dropping(id) in s.tasks;
    assert (t.id, t.n) in u.db.versions;
  }

  // ---------- aliases ----------

  /** Every alias leads to a live version or to one whose deletion is about to pull it. */
  ghost predicate AliasesSound(s: System) {
    forall id, a :: id in s.db.models && a in s.db.models[id].aliases ==>
        Live(s.db.versions, id, a.v) || Pulling(id, a.v) in s.tasks
  }

  /** An alias written for a version whose deletion has already pulled its aliases. */
  predicate StaleWrite(s: System, e: Step) {
    && e.Continue? && e.t.Aliasing? && e.t.name in s.db.names
    && !Live(s.db.versions, s.db.names[e.t.name], e.t.n) && Pulling(s.db.names[e.t.name], e.t.n) !in s.tasks
  }

  /** Steps after which no model has a new alias, and every target is still live or being pulled. */
  lemma SoundIfKept(s: System, t: System)
    requires AliasesSound(s)
    requires forall id :: id in t.db.models ==> id in s.db.models && t.db.models[id].aliases == s.db.models[id].aliases
    requires forall id: nat, n: nat :: id in t.db.models && Live(s.db.versions, id, n) ==>
            Live(t.db.versions, id, n) || Pulling(id, n) in t.tasks
    requires forall x :: x in s.tasks && x.Pulling? ==> x in t.tasks
    ensures AliasesSound(t)
  {}

  lemma KeepsAliasArrays(s: System, t: Task)
    requires !t.Pulling? && !t.Aliasing?
    ensures var m := Perform(s, t).0.models;
            m.Keys == s.db.models.Keys && forall id :: id in m ==> m[id].aliases == s.db.models[id].aliases
  {}

  lemma LosesOnlyDeleted(s: System, t: Task, id: nat, n: nat)
    requires TasksOk(s) && t in s.tasks && id in s.db.models && Live(s.db.versions, id, n)
    ensures Live(Perform(s, t).0.versions, id, n) || Perform(s, t).1 == Some(Pulling(id, n))
  {}

  lemma SoundTask(s: System, t: Task)
    requires TasksOk(s) && t in s.tasks && AliasesSound(s) && !t.Pulling? && !t.Aliasing?
    ensures AliasesSound(Apply(s, Continue(t)))
  {
    var u, todo := Apply(s, Continue(t)), Perform(s, t).1;
    assert u.tasks == s.tasks - multiset{t} + Bag(todo);
    KeepsAliasArrays(s, t);
    forall id: nat, n: nat | id in u.db.models && Live(s.db.versions, id, n)
        ensures Live(u.db.versions, id, n) || Pulling(id, n) in u.tasks {
      LosesOnlyDeleted(s, t, id, n);
    }
    SoundIfKept(s, u);
  }

  lemma SoundPull(s: System, t: Task)
    requires t in s.tasks && AliasesSound(s) && t.Pulling?
    ensures AliasesSound(Apply(s, Continue(t)))
  {
    var u := Apply(s, Continue(t));
    assert u.tasks == s.tasks - multiset{t} + Bag(None);
    if t.id in s.db.models { PullVersionKeeps(s.db.models[t.id].aliases, t.n); }
    forall id, a | id in u.db.models && a in u.db.models[id].aliases
      ensures Live(u.db.versions, id, a.v) || Pulling(id, a.v) in u.tasks
    {
      assert a in s.db.models[id].aliases;
      assert Pulling(id, a.v) != t;
    }
  }

  lemma MergedAlias(aliases: seq<Entry<nat>>, alias: string, n: nat)
    ensures Entry(alias, n) in Merge(aliases, [Entry(alias, n)])
    ensures forall a <- Merge(aliases, [Entry(alias, n)]) :: a in aliases || a == Entry(alias, n)
  {
    var a := Merge(aliases, [Entry(alias, n)]);
    assert a[|a| - 1] == Entry(alias, n);
  }

  lemma WriteEffect(s: System, t: Task)
    requires t in s.tasks && t.Aliasing?
    ensures var u := Apply(s, Continue(t));
            && (forall id: nat, n: nat :: Pulling(id, n) in u.tasks <==> Pulling(id, n) in s.tasks)
            && u.db.versions == s.db.versions
            && u.db.models.Keys == s.db.models.Keys
            && forall i :: i in s.db.models ==>
                 u.db.models[i].aliases == if t.name in s.db.names && i == s.db.names[t.name]
                     then Merge(s.db.models[i].aliases, [Entry(t.alias, t.n)])
                                           else s.db.models[i].aliases
  {
    assert Apply(s, Continue(t)).tasks == s.tasks - multiset{t} + Bag(None);
  }

  lemma FreshWrite(s: System, t: Task)
    requires t in s.tasks && AliasesSound(s) && t.Aliasing? && !StaleWrite(s, Continue(t))
    ensures AliasesSound(Apply(s, Continue(t)))
  {
    var u := Apply(s, Continue(t));
    WriteEffect(s, t);
    forall id, a | id in u.db.models && a in u.db.models[id].aliases
      ensures Live(u.db.versions, id, a.v) || Pulling(id, a.v) in u.tasks
    {
      MergedAlias(s.db.models[id].aliases, t.alias, t.n);
      assert a in s.db.models[id].aliases || (a.v == t.n && t.name in s.db.names && id == s.db.names[t.name]);
    }
  }

  lemma SoundWrite(s: System, t: Task)
    requires IndexOk(s.db) && t in s.tasks && AliasesSound(s) && t.Aliasing?
    ensures AliasesSound(Apply(s, Continue(t))) <==> !StaleWrite(s, Continue(t))
  {
    if StaleWrite(s, Continue(t)) {
      var id := s.db.names[t.name];
      WriteEffect(s, t);
      MergedAlias(s.db.models[id].aliases, t.alias, t.n);
      assert Entry(t.alias, t.n) in Apply(s, Continue(t)).db.models[id].aliases;
    } else {
      FreshWrite(s, t);
    }
  }

  lemma SoundRequest(s: System, e: Step)
    requires Inv(s) && Enabled(s, e) && AliasesSound(s) && !e.Continue?
    ensures AliasesSound(Apply(s, e))
  {
    var u := Apply(s, e);
    match e {
      case MakeModel(_, _, _) =>
      case RemoveAlias(_, _) =>
      case _ => SoundIfKept(s, u);
    }
  }

  /** The check and the write of an alias are two steps. A step leaves an alias dangling exactly if
      the write finds the version deleted and its aliases pulled. */
  lemma DanglingAliasesAreStaleWrites(s: System, e: Step)
    requires Inv(s) && Enabled(s, e) && AliasesSound(s)
    ensures AliasesSound(Apply(s, e)) <==> !StaleWrite(s, e)
  {
    if !e.Continue? { SoundRequest(s, e); }
    else if e.t.Aliasing? { SoundWrite(s, e.t); }
    else if e.t.Pulling? { SoundPull(s, e.t); }
    else { SoundTask(s, e.t); }
  }

  /** If no write was stale, then once all clients are done every alias leads to a live version. */
  ghost predicate Fresh(s: System, steps: seq<Step>)
    decreases |steps|
  {
    steps == [] || (Enabled(s, steps[0]) && !StaleWrite(s, steps[0]) && Fresh(Apply(s, steps[0]), steps[1..]))
  }

  lemma {:induction false} FreshRunsKeepAliases(s: System, steps: seq<Step>, t: System)
    requires Inv(s) && AliasesSound(s) && IsRun(s, steps, t) && Fresh(s, steps)
    ensures AliasesSound(t)
    ensures t.tasks == multiset{} ==> forall id, a :: id in t.db.models && a in t.db.models[id].aliases ==>
            Live(t.db.versions, id, a.v)
    decreases |steps|
  {
    if steps != [] {
      StepKeepsInv(s, steps[0]);
      DanglingAliasesAreStaleWrites(s, steps[0]);
      FreshRunsKeepAliases(Apply(s, steps[0]), steps[1..], t);
    }
  }

  // ---------- archiving ----------

  ghost predicate PendingArchive(tasks: multiset<Task>, id: nat, n: nat, stage: Stage) {
    exists now :: Archiving(id, n, stage, now) in tasks
  }

  predicate In(versions: map<(nat, nat), Version>, id: nat, n: nat, stage: Stage) {
    (id, n) in versions && versions[(id, n)].stage == stage
  }

  /** Of any two versions in the stage, the client that moved one of them is about to archive the other. */
  ghost predicate Contested(s: System, id: nat, stage: Stage) {
    forall n: nat, m: nat :: n != m && In(s.db.versions, id, n, stage) && In(s.db.versions, id, m, stage) ==>
      PendingArchive(s.tasks, id, n, stage) || PendingArchive(s.tasks, id, m, stage)
  }

  ghost predicate OnlyArchivingMoves(s: System, stage: Stage) {
    forall t :: t in s.tasks && t.Moving? && t.stage == stage ==> t.archive
  }

  lemma ContestedIfFewer(s: System, t: System, id: nat, stage: Stage)
    requires Contested(s, id, stage)
    requires forall n: nat :: In(t.db.versions, id, n, stage) ==> In(s.db.versions, id, n, stage)
    requires forall x :: x in s.tasks && x.Archiving? && x.id == id && x.stage == stage ==> x in t.tasks
    ensures Contested(t, id, stage)
  {
    forall n: nat, m: nat | n != m && In(t.db.versions, id, n, stage) && In(t.db.versions, id, m, stage)
      ensures PendingArchive(t.tasks, id, n, stage) || PendingArchive(t.tasks, id, m, stage)
    {
      if PendingArchive(s.tasks, id, n, stage) {
        var now :| Archiving(id, n, stage, now) in s.tasks;
        assert Archiving(id, n, stage, now) in t.tasks;
      } else {
        var now :| Archiving(id, m, stage, now) in s.tasks;
        assert Archiving(id, m, stage, now) in t.tasks;
      }
    }
  }

  lemma ContestedByMove(s: System, t: Task, id: nat, stage: Stage)
    requires t in s.tasks && t.Moving? && t.archive && t.stage == stage && t.id == id && Live(s.db.versions, id, t.n)
    requires Contested(s, id, stage)
    ensures Contested(Apply(s, Continue(t)), id, stage)
  {
    var u := Apply(s, Continue(t));
    assert Archiving(id, t.n, stage, t.now) in u.tasks;
    forall n: nat, m: nat | n != m && In(u.db.versions, id, n, stage) && In(u.db.versions, id, m, stage)
      ensures PendingArchive(u.tasks, id, n, stage) || PendingArchive(u.tasks, id, m, stage)
    {
      if n != t.n && m != t.n {
        assert In(s.db.versions, id, n, stage) && In(s.db.versions, id, m, stage);
        if PendingArchive(s.tasks, id, n, stage) {
          var now :| Archiving(id, n, stage, now) in s.tasks;
          assert Archiving(id, n, stage, now) in u.tasks;
        } else {
          var now :| Archiving(id, m, stage, now) in s.tasks;
          assert Archiving(id, m, stage, now) in u.tasks;
        }
      }
    }
  }

  /** Only a move into the stage puts a stored version there. */
  lemma EntersByMove(s: System, t: Task, id: nat, stage: Stage, n: nat)
    requires TasksOk(s) && t in s.tasks && (stage == Staging || stage == Production)
    requires !(t.Moving? && t.id == id && t.stage == stage)
    requires In(Perform(s, t).0.versions, id, n, stage)
    ensures In(s.db.versions, id, n, stage)
  {}

  lemma ContestedTask(s: System, t: Task, id: nat, stage: Stage)
    requires TasksOk(s) && t in s.tasks && (stage == Staging || stage == Production)
    requires Contested(s, id, stage) && OnlyArchivingMoves(s, stage)
    ensures Contested(Apply(s, Continue(t)), id, stage)
  {
    var u := Apply(s, Continue(t));
    assert u.tasks == s.tasks - multiset{t} + Bag(Perform(s, t).1);
    if t.Moving? && t.id == id && t.stage == stage {
      if Live(s.db.versions, id, t.n) { ContestedByMove(s, t, id, stage); }
      else { ContestedIfFewer(s, u, id, stage); }
    } else if t.Archiving? && t.id == id && t.stage == stage {
      assert forall m: nat :: In(u.db.versions, id, m, stage) ==> m == t.n;
    } else {
      forall n: nat | In(u.db.versions, id, n, stage) ensures In(s.db.versions, id, n, stage) {
        EntersByMove(s, t, id, stage, n);
      }
      ContestedIfFewer(s, u, id, stage);
    }
  }

  lemma FollowUpIsNoMove(s: System, t: Task, x: Task)
    requires t in s.tasks && x in Apply(s, Continue(t)).tasks && x !in s.tasks
    ensures Perform(s, t).1 == Some(x) && !x.Moving?
  {
    assert Apply(s, Continue(t)).tasks == s.tasks - multiset{t} + Bag(Perform(s, t).1);
  }

  lemma RequestedMove(s: System, e: Step, x: Task)
    requires Enabled(s, e) && !e.Continue? && x in Apply(s, e).tasks && x !in s.tasks && x.Moving?
    ensures e.BeginMove? && x.stage == e.stage && x.archive == e.archive
  {
    if !e.RemoveModel? { assert Apply(s, e).tasks == s.tasks + Bag(FirstTask(s, e)); }
  }

  /** An archiving leaves its own version, and empties the stage exactly if that version was moved away
      or deleted in the meantime. */
  lemma ArchivingEmptiesExactly(s: System, t: Task)
    requires t in s.tasks && t.Archiving? && t.stage != Archived
    ensures var after := Apply(s, Continue(t)).db.versions;
            && (forall k: nat :: In(after, t.id, k, t.stage) ==> k == t.n)
            && ((forall k: nat :: !In(after, t.id, k, t.stage)) <==> !In(s.db.versions, t.id, t.n, t.stage))
  {
    var after := Apply(s, Continue(t)).db.versions;
    assert In(after, t.id, t.n, t.stage) <==> In(s.db.versions, t.id, t.n, t.stage);
  }

  lemma MovesStayArchiving(s: System, e: Step, stage: Stage)
    requires Enabled(s, e) && OnlyArchivingMoves(s, stage)
    requires e.BeginMove? && e.stage == stage ==> e.archive
    ensures OnlyArchivingMoves(Apply(s, e), stage)
  {
    forall x | x in Apply(s, e).tasks && x.Moving? && x.stage == stage ensures x.archive {
      if x !in s.tasks {
        if e.Continue? { FollowUpIsNoMove(s, e.t, x); } else { RequestedMove(s, e, x); }
      }
    }
  }

  lemma ContestedStep(s: System, e: Step, id: nat, stage: Stage)
    requires TasksOk(s) && Enabled(s, e) && (stage == Staging || stage == Production)
    requires Contested(s, id, stage) && OnlyArchivingMoves(s, stage)
    requires e.BeginMove? && e.stage == stage ==> e.archive
    ensures Contested(Apply(s, e), id, stage) && OnlyArchivingMoves(Apply(s, e), stage)
  {
    MovesStayArchiving(s, e, stage);
    if e.Continue? { ContestedTask(s, e.t, id, stage); }
    else {
      assert Apply(s, e).db.versions == s.db.versions;
      ContestedIfFewer(s, Apply(s, e), id, stage);
    }
  }

  /** If every transition into an active stage archives, then however transitions interleave, once
      all clients are done at most one version of a model is in the stage. */
  lemma {:induction false} ArchivingLeavesAtMostOne(s: System, steps: seq<Step>, t: System, id: nat, stage: Stage)
    requires Inv(s) && IsRun(s, steps, t) && (stage == Staging || stage == Production)
    requires Contested(s, id, stage) && OnlyArchivingMoves(s, stage)
    requires forall e <- steps :: e.BeginMove? && e.stage == stage ==> e.archive
    ensures Contested(t, id, stage)
    ensures t.tasks == multiset{} ==> forall n: nat, m: nat ::
            In(t.db.versions, id, n, stage) && In(t.db.versions, id, m, stage) ==> n == m
    decreases |steps|
  {
    if steps != [] {
      assert steps[0] in steps;
      StepKeepsInv(s, steps[0]);
      ContestedStep(s, steps[0], id, stage);
      ArchivingLeavesAtMostOne(Apply(s, steps[0]), steps[1..], t, id, stage);
    }
  }

  /** Steps that may take version `n` out of the stage: moving it elsewhere, deleting it or its model, and
      the archiving of another transition into the stage. */
  predicate Removes(t: Task, id: nat, n: nat, stage: Stage) {
    || (t.Moving? && t.id == id && t.n == n && t.stage != stage)
    || (t.Deleting? && t.id == id && t.n == n)
    || (t.Archiving? && t.id == id && t.n != n && t.stage == stage)
    || (t.Dropping? && t.id == id)
  }

  predicate NeverRemoved(steps: seq<Step>, id: nat, n: nat, stage: Stage) {
    forall e <- steps :: e.Continue? ==> !Removes(e.t, id, n, stage)
  }

  lemma StaysByTask(s: System, t: Task, id: nat, n: nat, stage: Stage)
    requires In(s.db.versions, id, n, stage) && !Removes(t, id, n, stage)
    ensures In(Perform(s, t).0.versions, id, n, stage)
  {}

  lemma RequestsKeepVersions(s: System, e: Step)
    requires Enabled(s, e) && !e.Continue?
    ensures Apply(s, e).db.versions == s.db.versions
  {}

  lemma StaysByStep(s: System, e: Step, id: nat, n: nat, stage: Stage)
    requires Enabled(s, e) && In(s.db.versions, id, n, stage) && (e.Continue? ==> !Removes(e.t, id, n, stage))
    ensures In(Apply(s, e).db.versions, id, n, stage)
  {
    if e.Continue? { StaysByTask(s, e.t, id, n, stage); } else { RequestsKeepVersions(s, e); }
  }

  lemma {:induction false} StaysInStage(s: System, steps: seq<Step>, t: System, id: nat, n: nat, stage: Stage)
    requires IsRun(s, steps, t) && In(s.db.versions, id, n, stage) && NeverRemoved(steps, id, n, stage)
    ensures In(t.db.versions, id, n, stage)
    decreases |steps|
  {
    if steps != [] {
      assert steps[0] in steps && forall e <- steps[1..] :: e in steps;
      StaysByStep(s, steps[0], id, n, stage);
      StaysInStage(Apply(s, steps[0]), steps[1..], t, id, n, stage);
    }
  }

  /** From the moment a version has been moved into an active stage, if all transitions into the stage
      archive and no other client moves or deletes this version, deletes the model, or archives for a
      transition of its own, then in the end this version alone is in the stage. */
  lemma ExactlyOneRemains(s: System, steps: seq<Step>, t: System, id: nat, n: nat, stage: Stage)
    requires Inv(s) && IsRun(s, steps, t) && (stage == Staging || stage == Production)
    requires Contested(s, id, stage) && OnlyArchivingMoves(s, stage)
    requires forall e <- steps :: e.BeginMove? && e.stage == stage ==> e.archive
    requires In(s.db.versions, id, n, stage) && NeverRemoved(steps, id, n, stage) && t.tasks == multiset{}
    ensures forall k: nat :: In(t.db.versions, id, k, stage) <==> k == n
  {
    ArchivingLeavesAtMostOne(s, steps, t, id, stage);
    StaysInStage(s, steps, t, id, n, stage);
  }

  // ---------- interleavings that do go wrong ----------

  predicate Goes(s: System, e: Step, t: System) {
    Enabled(s, e) && Apply(s, e) == t
  }

  lemma RunCons(s: System, e: Step, u: System, rest: seq<Step>, steps: seq<Step>, t: System)
    requires Goes(s, e, u) && IsRun(u, rest, t) && steps == [e] + rest
    ensures IsRun(s, steps, t)
  {
    assert steps[1..] == rest;
  }

  /** Steps that lead from each state of a list to the next one are a run. */
  lemma {:induction false} PathIsRun(states: seq<System>, steps: seq<Step>)
    requires |states| == |steps| + 1 && forall i :: 0 <= i < |steps| ==> Goes(states[i], steps[i], states[i + 1])
    ensures IsRun(states[0], steps, states[|steps|])
    decreases |steps|
  {
    if steps != [] {
      PathIsRun(states[1..], steps[1..]);
      RunCons(states[0], steps[0], states[1], steps[1..], steps, states[|steps|]);
    }
  }

  lemma ThreeSteps(s: System, a: Step, s1: System, b: Step, s2: System, c: Step, t: System)
    returns (steps: seq<Step>)
    requires Goes(s, a, s1) && Goes(s1, b, s2) && Goes(s2, c, t)
    ensures IsRun(s, steps, t)
  {
    steps := [a, b, c];
    PathIsRun([s, s1, s2, t], steps);
  }

  lemma FiveSteps(s: System, a: Step, s1: System, b: Step, s2: System, c: Step, s3: System, d: Step, s4: System,
      e: Step, t: System) returns (steps: seq<Step>)
    requires Goes(s, a, s1) && Goes(s1, b, s2) && Goes(s2, c, s3) && Goes(s3, d, s4) && Goes(s4, e, t)
    ensures IsRun(s, steps, t)
  {
    var rest := ThreeSteps(s2, c, s3, d, s4, e, t);
    RunCons(s1, b, s2, rest, [b] + rest, t);
    steps := [a] + ([b] + rest);
    RunCons(s, a, s1, [b] + rest, steps, t);
  }

  /** A request is taken up. */
  lemma TakesUp(s: System, e: Step, t: Task)
    requires !e.Continue? && !e.MakeModel? && !e.Rename? && !e.RemoveModel? && !e.RemoveAlias?
    requires Enabled(s, e) && FirstTask(s, e) == Some(t)
    ensures Goes(s, e, s.(tasks := s.tasks + multiset{t}))
  {}

  /** A task is carried on. */
  lemma CarriesOn(s: System, t: Task, rest: multiset<Task>, todo: Option<Task>, db: State)
    requires s.tasks == multiset{t} + rest && Perform(s, t) == (db, todo) && (todo.Some? ==> !todo.value.Inserting?)
    ensures Goes(s, Continue(t), System(db, rest + Bag(todo), s.issued))
  {
    assert s.tasks - multiset{t} == rest;
  }

  // ---------- a client that is alone ----------

  /** The same names, versions and models, but for the models' timestamps. */
  ghost predicate UpToTimes(a: State, b: State) {
    && a.names == b.names && a.nextId == b.nextId && a.versions == b.versions && a.models.Keys == b.models.Keys
    && forall id :: id in a.models ==> a.models[id].(updated := 0) == b.models[id].(updated := 0)
  }

  /** A creation that is not interleaved is the sequential operation. */
  lemma CreateAlone(s: System, name: string, v: Version) returns (steps: seq<Step>, t: System)
    requires Valid(s.db) && s.tasks == multiset{} && name in s.db.names && v.stage == NoStage
    ensures IsRun(s, steps, t) && t.tasks == multiset{} && t.db == CreateVersion(s.db, name, v).0
  {
    InsertMeaning(s.db, name, v);
    steps, t := CreationRun(s, name, v);
  }

  lemma CreationRun(s: System, name: string, v: Version) returns (steps: seq<Step>, t: System)
    requires IndexOk(s.db) && s.tasks == multiset{} && name in s.db.names && v.stage == NoStage
    requires (s.db.names[name], s.db.models[s.db.names[name]].counter + 1) !in s.db.versions
    ensures var id := s.db.names[name];
            var n := s.db.models[id].counter + 1;
            var model := s.db.models[id].(counter := n, updated := v.updated);
            && IsRun(s, steps, t) && t.tasks == multiset{}
            && t.db == s.db.(models := s.db.models[id := model], versions := s.db.versions[(id, n) := v])
  {
    var id := s.db.names[name];
    var n := s.db.models[id].counter + 1;
    var model := s.db.models[id].(counter := n, updated := v.updated);
    var s2 := System(s.db.(models := s.db.models[id := model]), multiset{Inserting(id, n, v)}, Note(s.issued, id, n));
    AllocationGoes(s, name, v);
    t := InsertionRun(s2, id, n, v);
    steps := ThreeSteps(s, BeginCreate(name, v), s.(tasks := multiset{Allocating(id, v)}),
                        Continue(Allocating(id, v)), s2, Continue(Inserting(id, n, v)), t);
  }

  lemma InsertionRun(s: System, id: nat, n: nat, v: Version) returns (t: System)
    requires s.tasks == multiset{Inserting(id, n, v)} && (id, n) !in s.db.versions
    ensures Goes(s, Continue(Inserting(id, n, v)), t) && t.tasks == multiset{}
    ensures t.db == s.db.(versions := s.db.versions[(id, n) := v])
  {
    var db := s.db.(versions := s.db.versions[(id, n) := v]);
    CarriesOn(s, Inserting(id, n, v), multiset{}, None, db);
    t := System(db, multiset{} + Bag(None), s.issued);
  }

  /** So is a deletion of a version. */
  lemma DeleteAlone(s: System, name: string, n: nat, now: int) returns (steps: seq<Step>, t: System)
    requires Valid(s.db) && s.tasks == multiset{} && Names(s.db, name, n)
    ensures IsRun(s, steps, t) && t.tasks == multiset{} && UpToTimes(t.db, DeleteVersion(s.db, name, n, now).0)
  {
    var db, id := s.db, s.db.names[name];
    var mark, pull := Deleting(id, n, now), Pulling(id, n);
    var s1 := s.(tasks := multiset{} + multiset{mark});
    TakesUp(s, BeginDelete(name, n, now), mark);
    var db2 := db.(versions := db.versions[(id, n) := Redact(db.versions[(id, n)], now)]);
    var s2 := System(db2, multiset{} + Bag(Some(pull)), s.issued);
    CarriesOn(s1, mark, multiset{}, Some(pull), db2);
    t := System(WithAliases(db2, id, PullVersion(db2.models[id].aliases, n)), multiset{} + Bag(None), s.issued);
    CarriesOn(s2, pull, multiset{}, None, t.db);
    steps := ThreeSteps(s, BeginDelete(name, n, now), s1, Continue(mark), s2, Continue(pull), t);
  }

  /** So is setting an alias. */
  lemma SetAliasAlone(s: System, name: string, alias: string, n: nat) returns (steps: seq<Step>, t: System)
    requires Valid(s.db) && s.tasks == multiset{} && Names(s.db, name, n) && !IsLatest(alias)
    ensures IsRun(s, steps, t) && t.tasks == multiset{} && t.db == SetAlias(s.db, name, alias, n).0
  {
    var id, write := s.db.names[name], Aliasing(name, alias, n);
    var s1 := s.(tasks := multiset{} + multiset{write});
    TakesUp(s, BeginAlias(name, alias, n), write);
    var db := WithAliases(s.db, id, Merge(s.db.models[id].aliases, [Entry(alias, n)]));
    t := System(db, multiset{} + Bag(None), s.issued);
    CarriesOn(s1, write, multiset{}, None, db);
    steps := [BeginAlias(name, alias, n), Continue(write)];
    PathIsRun([s, s1, t], steps);
  }

  /** So is deleting a model. */
  lemma DeleteModelAlone(s: System, name: string) returns (steps: seq<Step>, t: System)
    requires Valid(s.db) && s.tasks == multiset{} && name in s.db.names
    ensures IsRun(s, steps, t) && t.tasks == multiset{} && t.db == DeleteModel(s.db, name).0
  {
    var db, id := s.db, s.db.names[name];
    var db1 := db.(names := db.names - {name}, models := db.models - {id});
    var s1 := System(db1, multiset{} + multiset{Dropping(id)}, s.issued);
    assert Goes(s, RemoveModel(name), s1);
    t := System(db1.(versions := DropAll(db1.versions, id)), multiset{} + Bag(None), s.issued);
    CarriesOn(s1, Dropping(id), multiset{}, None, t.db);
    steps := [RemoveModel(name), Continue(Dropping(id))];
    PathIsRun([s, s1, t], steps);
  }

  lemma ArchivingAlone(s: System, name: string, n: nat, stage: Stage, now: int) returns (steps: seq<Step>, t: System)
    requires IndexOk(s.db) && s.tasks == multiset{} && Names(s.db, name, n) && (stage == Staging || stage == Production)
    ensures IsRun(s, steps, t) && t.tasks == multiset{}
    ensures var moved := Moved(s.db.versions, s.db.names[name], n, stage, now);
            t.db == s.db.(versions := ArchiveOthers(moved, s.db.names[name], n, stage, now))
  {
    var id := s.db.names[name];
    var begin, move := BeginMove(name, n, stage, true, now), Moving(id, n, stage, true, now);
    var s1 := s.(tasks := multiset{} + multiset{move});
    TakesUp(s, begin, move);
    var db := s.db.(versions := Moved(s.db.versions, id, n, stage, now));
    var s2 := System(db, multiset{} + multiset{Archiving(id, n, stage, now)}, s.issued);
    MoveGoes(s1, id, n, stage, now, multiset{});
    t := System(db.(versions := ArchiveOthers(db.versions, id, n, stage, now)), multiset{}, s.issued);
    ArchiveGoes(s2, id, n, stage, now, multiset{});
    steps := ThreeSteps(s, begin, s1, Continue(move), s2, Continue(Archiving(id, n, stage, now)), t);
  }

  lemma MovingAlone(s: System, name: string, n: nat, stage: Stage, now: int) returns (steps: seq<Step>, t: System)
    requires IndexOk(s.db) && s.tasks == multiset{} && Names(s.db, name, n) && stage != DeletedInternal
    ensures IsRun(s, steps, t) && t.tasks == multiset{}
    ensures t.db == s.db.(versions := Moved(s.db.versions, s.db.names[name], n, stage, now))
  {
    var id := s.db.names[name];
    var begin, move := BeginMove(name, n, stage, false, now), Moving(id, n, stage, false, now);
    var s1 := s.(tasks := multiset{} + multiset{move});
    TakesUp(s, begin, move);
    t := System(s.db.(versions := Moved(s.db.versions, id, n, stage, now)), multiset{} + Bag(None), s.issued);
    CarriesOn(s1, move, multiset{}, None, t.db);
    steps := [begin, Continue(move)];
    PathIsRun([s, s1, t], steps);
  }

  /** So is a transition, archiving or not. */
  lemma TransitionAlone(s: System, name: string, n: nat, stage: Stage, archive: bool, now: int)
    returns (steps: seq<Step>, t: System)
    requires Valid(s.db) && s.tasks == multiset{} && Transition(s.db, name, n, stage, archive, now).1 == Done
    ensures IsRun(s, steps, t) && t.tasks == multiset{}
    ensures UpToTimes(t.db, Transition(s.db, name, n, stage, archive, now).0)
  {
    TransitionMeaning(s.db, name, n, stage, archive, now);
    if archive {
      steps, t := ArchivingAlone(s, name, n, stage, now);
    } else {
      steps, t := MovingAlone(s, name, n, stage, now);
    }
  }

  /** Creating and renaming a model and deleting an alias are single updates. */
  lemma SingleUpdatesAlone(s: System, name: string, other: string, tags: seq<Entry<string>>, now: int)
    requires Valid(s.db)
    ensures Apply(s, MakeModel(name, tags, now)).db == CreateModel(s.db, name, tags, now).0
    ensures Apply(s, RemoveAlias(name, other)).db == DeleteAlias(s.db, name, other).0
    ensures Apply(s, Rename(name, other, now)).db.names == RenameModel(s.db, name, other, now).0.names
  {}

  /** From any quiet registry: a creation that has its number when the model is deleted inserts a
      version no model owns. */
  lemma LateInsertionIsPossible(s: System, name: string, v: Version) returns (steps: seq<Step>, t: System)
    requires Inv(s) && s.tasks == multiset{} && name in s.db.names && v.stage == NoStage
    ensures IsRun(s, steps, t) && t.tasks == multiset{}
    ensures exists n: nat :: Live(t.db.versions, s.db.names[name], n) && s.db.names[name] !in t.db.models
  {
    var id := s.db.names[name];
    var n := s.db.models[id].counter + 1;
    NextNumberIsFree(s, id);
    AllocationGoes(s, name, v);
    var s1 := s.(tasks := multiset{Allocating(id, v)});
    var model := s.db.models[id].(counter := n, updated := v.updated);
    var s2 := System(s.db.(models := s.db.models[id := model]), multiset{Inserting(id, n, v)}, Note(s.issued, id, n));
    SameIndex(s.db, s2.db);
    var rest;
    rest, t := InsertionAfterRemoval(s2, name, n, v);
    RunCons(s1, Continue(Allocating(id, v)), s2, rest, [Continue(Allocating(id, v))] + rest, t);
    steps := [BeginCreate(name, v)] + ([Continue(Allocating(id, v))] + rest);
    RunCons(s, BeginCreate(name, v), s1, [Continue(Allocating(id, v))] + rest, steps, t);
  }

  lemma NextNumberIsFree(s: System, id: nat)
    requires Inv(s) && id in s.db.models
    ensures (id, s.db.models[id].counter + 1) !in s.db.versions
  {}

  /** A creation up to its number: the request, and the allocation. */
  lemma AllocationGoes(s: System, name: string, v: Version)
    requires IndexOk(s.db) && s.tasks == multiset{} && name in s.db.names && v.stage == NoStage
    ensures var id := s.db.names[name];
            var n := s.db.models[id].counter + 1;
            var s1 := s.(tasks := multiset{Allocating(id, v)});
            var model := s.db.models[id].(counter := n, updated := v.updated);
            var db := s.db.(models := s.db.models[id := model]);
            var s2 := System(db, multiset{Inserting(id, n, v)}, Note(s.issued, id, n));
            Goes(s, BeginCreate(name, v), s1) && Goes(s1, Continue(Allocating(id, v)), s2)
  {
    var id := s.db.names[name];
    var t, x := Allocating(id, v), Inserting(id, s.db.models[id].counter + 1, v);
    TakesUp(s, BeginCreate(name, v), t);
    assert s.tasks + multiset{t} == multiset{t};
    assert multiset{t} - multiset{t} + Bag(Some(x)) == multiset{x};
  }

  /** The model and its versions go while an insertion is under way, which then takes place. */
  lemma InsertionAfterRemoval(s: System, name: string, n: nat, v: Version) returns (steps: seq<Step>, t: System)
    requires IndexOk(s.db) && name in s.db.names && (s.db.names[name], n) !in s.db.versions && v.stage == NoStage
    requires s.tasks == multiset{Inserting(s.db.names[name], n, v)}
    ensures IsRun(s, steps, t) && t.tasks == multiset{}
    ensures Live(t.db.versions, s.db.names[name], n) && s.db.names[name] !in t.db.models
  {
    var db, id := s.db, s.db.names[name];
    var insert, drop := Inserting(id, n, v), Dropping(id);
    var db1 := db.(names := db.names - {name}, models := db.models - {id});
    var s1 := System(db1, multiset{insert} + multiset{drop}, s.issued);
    assert Goes(s, RemoveModel(name), s1);
    var db2 := db1.(versions := DropAll(db1.versions, id));
    var s2 := System(db2, multiset{insert} + Bag(None), s.issued);
    CarriesOn(s1, drop, multiset{insert}, None, db2);
    var db3 := db2.(versions := db2.versions[(id, n) := v]);
    t := System(db3, multiset{} + Bag(None), s.issued);
    CarriesOn(s2, insert, multiset{}, None, db3);
    assert IsRun(t, [], t);
    RunCons(s2, Continue(insert), t, [], [Continue(insert)], t);
    RunCons(s1, Continue(drop), s2, [Continue(insert)], [Continue(drop), Continue(insert)], t);
    steps := [RemoveModel(name), Continue(drop), Continue(insert)];
    RunCons(s, RemoveModel(name), s1, [Continue(drop), Continue(insert)], steps, t);
  }

  /** From any quiet registry: an alias checked before and written after the deletion of its version
      is left pointing to a deleted version. */
  lemma StaleWriteIsPossible(s: System, name: string, alias: string, n: nat, now: int)
      returns (steps: seq<Step>, t: System)
    requires IndexOk(s.db) && s.tasks == multiset{} && name in s.db.names && Live(s.db.versions, s.db.names[name], n)
    ensures IsRun(s, steps, t) && t.tasks == multiset{}
    ensures var id := s.db.names[name];
            id in t.db.models && Entry(alias, n) in t.db.models[id].aliases && Deleted(t.db, id, n)
  {
    var db, id := s.db, s.db.names[name];
    var write, mark, pull := Aliasing(name, alias, n), Deleting(id, n, now), Pulling(id, n);
    var s1 := s.(tasks := multiset{write});
    TakesUp(s, BeginAlias(name, alias, n), write);
    assert s.tasks + multiset{write} == s1.tasks;
    var s2 := s.(tasks := multiset{write} + multiset{mark});
    TakesUp(s1, BeginDelete(name, n, now), mark);
    var db3 := db.(versions := db.versions[(id, n) := Redact(db.versions[(id, n)], now)]);
    var s3 := System(db3, multiset{write} + Bag(Some(pull)), s.issued);
    CarriesOn(s2, mark, multiset{write}, Some(pull), db3);
    var db4 := WithAliases(db3, id, PullVersion(db3.models[id].aliases, n));
    var s4 := System(db4, multiset{write} + Bag(None), s.issued);
    CarriesOn(s3, pull, multiset{write}, None, db4);
    MergedAlias(db4.models[id].aliases, alias, n);
    var db5 := WithAliases(db4, id, Merge(db4.models[id].aliases, [Entry(alias, n)]));
    t := System(db5, multiset{} + Bag(None), s.issued);
    CarriesOn(s4, write, multiset{}, None, db5);
    steps := FiveSteps(s, BeginAlias(name, alias, n), s1, BeginDelete(name, n, now), s2, Continue(mark), s3,
                       Continue(pull), s4, Continue(write), t);
  }

  function Moved(versions: map<(nat, nat), Version>, id: nat, n: nat, stage: Stage, now: int): map<(nat, nat), Version>
    requires (id, n) in versions
  {
    versions[(id, n) := versions[(id, n)].(stage := stage, updated := now)]
  }

  lemma MoveGoes(s: System, id: nat, n: nat, stage: Stage, now: int, rest: multiset<Task>)
    requires s.tasks == multiset{Moving(id, n, stage, true, now)} + rest && Live(s.db.versions, id, n)
    ensures Goes(s, Continue(Moving(id, n, stage, true, now)),
                 System(s.db.(versions := Moved(s.db.versions, id, n, stage, now)),
                     rest + multiset{Archiving(id, n, stage, now)}, s.issued))
  {
    CarriesOn(s, Moving(id, n, stage, true, now), rest, Some(Archiving(id, n, stage, now)),
      s.db.(versions := Moved(s.db.versions, id, n, stage, now)));
  }

  lemma ArchiveGoes(s: System, id: nat, n: nat, stage: Stage, now: int, rest: multiset<Task>)
    requires s.tasks == multiset{Archiving(id, n, stage, now)} + rest
    ensures Goes(s, Continue(Archiving(id, n, stage, now)),
                 System(s.db.(versions := ArchiveOthers(s.db.versions, id, n, stage, now)), rest, s.issued))
  {
    assert rest + Bag(None) == rest;
    var db := s.db.(versions := ArchiveOthers(s.db.versions, id, n, stage, now));
    CarriesOn(s, Archiving(id, n, stage, now), rest, None, db);
  }

  /** Once both of two crossing transitions have found their model, each can archive the other's version. */
  lemma CrossingEmpties(s: System, id: nat, n: nat, m: nat, stage: Stage, now: int)
      returns (steps: seq<Step>, t: System)
    requires s.tasks == multiset{Moving(id, n, stage, true, now), Moving(id, m, stage, true, now)}
    requires stage == Staging || stage == Production
    requires n != m && Live(s.db.versions, id, n) && Live(s.db.versions, id, m)
    ensures IsRun(s, steps, t) && t.tasks == multiset{}
    ensures forall k: nat :: !In(t.db.versions, id, k, stage)
  {
    var move, move' := Moving(id, n, stage, true, now), Moving(id, m, stage, true, now);
    var archive, archive' := Archiving(id, n, stage, now), Archiving(id, m, stage, now);
    var v1 := Moved(s.db.versions, id, n, stage, now);
    var s1 := System(s.db.(versions := v1), multiset{move'} + multiset{archive}, s.issued);
    assert s.tasks == multiset{move} + multiset{move'};
    MoveGoes(s, id, n, stage, now, multiset{move'});
    var v2 := Moved(v1, id, m, stage, now);
    var s2 := System(s.db.(versions := v2), multiset{archive} + multiset{archive'}, s.issued);
    MoveGoes(s1, id, m, stage, now, multiset{archive});
    var s3 := System(s.db.(versions := ArchiveOthers(v2, id, n, stage, now)), multiset{archive'}, s.issued);
    ArchiveGoes(s2, id, n, stage, now, multiset{archive'});
    t := System(s.db.(versions := ArchiveOthers(ArchiveOthers(v2, id, n, stage, now), id, m, stage, now)),
        multiset{}, s.issued);
    ArchiveGoes(s3, id, m, stage, now, multiset{});
    var rest := ThreeSteps(s1, Continue(move'), s2, Continue(archive), s3, Continue(archive'), t);
    steps := [Continue(move)] + rest;
    RunCons(s, Continue(move), s1, rest, steps, t);
    BothArchived(v2, id, n, m, stage, now);
  }

  /** From any quiet registry with two live versions of a model: "at most one" cannot be "exactly one",
      for two archiving transitions into a stage that cross leave the stage empty. */
  lemma CrossedTransitionsEmptyTheStage(s: System, name: string, n: nat, m: nat, stage: Stage, now: int)
    returns (steps: seq<Step>, t: System)
    requires s.tasks == multiset{} && name in s.db.names && (stage == Staging || stage == Production)
    requires n != m && Live(s.db.versions, s.db.names[name], n) && Live(s.db.versions, s.db.names[name], m)
    ensures IsRun(s, steps, t) && t.tasks == multiset{}
    ensures forall k: nat :: !In(t.db.versions, s.db.names[name], k, stage)
  {
    var id := s.db.names[name];
    var move, move' := Moving(id, n, stage, true, now), Moving(id, m, stage, true, now);
    var begin, begin' := BeginMove(name, n, stage, true, now), BeginMove(name, m, stage, true, now);
    var s1, s2 := s.(tasks := multiset{} + multiset{move}), s.(tasks := multiset{} + multiset{move} + multiset{move'});
    TakesUp(s, begin, move);
    TakesUp(s1, begin', move');
    var rest;
    rest, t := CrossingEmpties(s2, id, n, m, stage, now);
    RunCons(s1, begin', s2, rest, [begin'] + rest, t);
    RunCons(s, begin, s1, [begin'] + rest, [begin] + ([begin'] + rest), t);
    steps := [begin] + ([begin'] + rest);
  }

  /** Two archivings that each spare one version of the stage spare none. */
  lemma BothArchived(versions: map<(nat, nat), Version>, id: nat, n: nat, m: nat, stage: Stage, now: int)
    requires n != m && stage != Archived
    ensures var once := ArchiveOthers(versions, id, n, stage, now);
            forall k: nat :: !In(ArchiveOthers(once, id, m, stage, now), id, k, stage)
  {}
}
