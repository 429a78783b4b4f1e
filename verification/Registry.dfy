/** The model registry: registered models, their versions in a second collection, and aliases kept in
    the model's document. Operations run one after another here; RegistryConcurrency interleaves
    their steps. */
module Registry {
  import opened Wrappers
  import opened ArrayOperations

  datatype Stage = NoStage | Staging | Production | Archived | DeletedInternal

  /** A registered model; its name is the key of the unique name index. */
  datatype Model = Model(counter: nat, aliases: seq<Entry<nat>>, tags: seq<Entry<string>>, updated: int)

  datatype Version = Version(
    stage: Stage,
    description: Option<string>,
    source: string,
    storageLocation: string,
    runId: Option<string>,
    runLink: Option<string>,
    status: string,
    statusMessage: Option<string>,
    userId: Option<string>,
    modelId: Option<string>,
    tags: seq<Entry<string>>,
    created: int,
    updated: int)

  /** What a caller gives a new version. */
  datatype Draft = Draft(
    description: Option<string>,
    source: string,
    storageLocation: string,
    runId: Option<string>,
    runLink: Option<string>,
    modelId: Option<string>,
    tags: seq<Entry<string>>)

  /** The two collections. Object ids are handed out once each. */
  datatype State = State(names: map<string, nat>, models: map<nat, Model>, versions: map<(nat, nat), Version>,
      nextId: nat)

  datatype Outcome =
    | Done
    | Created(version: nat)
    | NotFound
    | AlreadyExists
    | NotActive
    | InvalidStage
    | Reserved

  // ---------- single-document updates ----------

  predicate Live(versions: map<(nat, nat), Version>, id: nat, n: nat) {
    (id, n) in versions && versions[(id, n)].stage != DeletedInternal
  }

  const REDACTED_SOURCE := "REDACTED-SOURCE-PATH"
  const REDACTED_RUN := "REDACTED-RUN-ID"
  const REDACTED_LINK := "REDACTED-RUN-LINK"

  function Redact(v: Version, now: int): Version {
    v.(stage := DeletedInternal, updated := now, description := None, userId := None, source := REDACTED_SOURCE,
       runId := Some(REDACTED_RUN), runLink := Some(REDACTED_LINK), statusMessage := None)
  }

  const READY := "READY"

  /** The inserted document; its tags are the dictionary of those given. */
  function NewVersion(d: Draft, now: int): Version {
    Version(NoStage, d.description, d.source, d.storageLocation, d.runId, d.runLink, READY, None, None, d.modelId,
            LastOfEach(d.tags), now, now)
  }

  /** archive_other_versions_in_stage. */
  function ArchiveOthers(versions: map<(nat, nat), Version>, id: nat, n: nat, stage: Stage, now: int)
      : map<(nat, nat), Version>
  {
    map k | k in versions ::
      if k.0 == id && k.1 != n && versions[k].stage == stage then versions[k].(stage := Archived, updated := now)
          else versions[k]
  }

  function TouchAll(versions: map<(nat, nat), Version>, id: nat, now: int): map<(nat, nat), Version> {
    map k | k in versions :: if k.0 == id then versions[k].(updated := now) else versions[k]
  }

  function DropAll(versions: map<(nat, nat), Version>, id: nat): map<(nat, nat), Version> {
    map k | k in versions && k.0 != id :: versions[k]
  }

  /** `$pull` of every alias of a version. */
  function PullVersion(aliases: seq<Entry<nat>>, n: nat): seq<Entry<nat>> {
    if aliases == [] then []
    else
      var init, last := PullVersion(aliases[..|aliases| - 1], n), aliases[|aliases| - 1];
      if last.v == n then init else init + [last]
  }

  /** The dictionary of initial tags, built by a loop. */
  method TagsByKey(tags: seq<Entry<string>>) returns (dict: seq<Entry<string>>)
    ensures dict == LastOfEach(tags)
  {
    dict := [];
    for i := 0 to |tags|
      invariant dict == LastOfEach(tags[..i])
    {
      assert tags[..i + 1][..i] == tags[..i];
      dict := Overwrite(dict, tags[i]);
    }
    assert tags[..|tags|] == tags;
  }

  // ---------- operations ----------

  function CreateModel(s: State, name: string, tags: seq<Entry<string>>, now: int): (State, Outcome) {
    if name in s.names then (s, AlreadyExists)
    else
      var model := Model(0, [], LastOfEach(tags), now);
      (State(s.names[name := s.nextId], s.models[s.nextId := model], s.versions, s.nextId + 1), Done)
  }

  function RenameModel(s: State, name: string, newName: string, now: int): (State, Outcome)
    requires Valid(s)
  {
    if name !in s.names then (s, NotFound)
    else if newName in s.names && newName != name then (s, AlreadyExists)
    else
      var id := s.names[name];
      (s.(names := (s.names - {name})[newName := id], models := s.models[id := s.models[id].(updated := now)],
          versions := TouchAll(s.versions, id, now)), Done)
  }

  function DeleteModel(s: State, name: string): (State, Outcome) {
    if name !in s.names then (s, NotFound)
    else
      var id := s.names[name];
      (s.(names := s.names - {name}, models := s.models - {id}, versions := DropAll(s.versions, id)), Done)
  }

  function CreateVersion(s: State, name: string, v: Version): (State, Outcome)
    requires Valid(s)
  {
    if name !in s.names then (s, NotFound)
    else
      var id := s.names[name];
      var n := s.models[id].counter + 1;
      (s.(models := s.models[id := s.models[id].(counter := n, updated := v.updated)],
          versions := s.versions[(id, n) := v]), Created(n))
  }

  function SetAlias(s: State, name: string, alias: string, n: nat): (State, Outcome)
    requires Valid(s)
  {
    if IsLatest(alias) then (s, Reserved)
    else if name !in s.names || !Live(s.versions, s.names[name], n) then (s, NotFound)
    else
      var id := s.names[name];
      (s.(models := s.models[id := s.models[id].(aliases := Merge(s.models[id].aliases, [Entry(alias, n)]))]), Done)
  }

  function DeleteAlias(s: State, name: string, alias: string): (State, Outcome)
    requires Valid(s)
  {
    if name !in s.names then (s, NotFound)
    else
      var id := s.names[name];
      (s.(models := s.models[id := s.models[id].(aliases := Pull(s.models[id].aliases, alias))]), Done)
  }

  function Transition(s: State, name: string, n: nat, stage: Stage, archive: bool, now: int): (State, Outcome)
    requires Valid(s)
  {
    if stage == DeletedInternal then (s, InvalidStage)
    else if archive && stage != Staging && stage != Production then (s, NotActive)
    else if name !in s.names || !Live(s.versions, s.names[name], n) then (s, NotFound)
    else
      var id := s.names[name];
      var moved := s.versions[(id, n) := s.versions[(id, n)].(stage := stage, updated := now)];
      (s.(models := s.models[id := s.models[id].(updated := now)],
          versions := if archive then ArchiveOthers(moved, id, n, stage, now) else moved), Done)
  }

  function DeleteVersion(s: State, name: string, n: nat, now: int): (State, Outcome)
    requires Valid(s)
  {
    if name !in s.names || !Live(s.versions, s.names[name], n) then (s, NotFound)
    else
      var id := s.names[name];
      var m := s.models[id];
      (s.(models := s.models[id := m.(aliases := PullVersion(m.aliases, n), updated := now)],
          versions := s.versions[(id, n) := Redact(s.versions[(id, n)], now)]), Done)
  }

  /** update_model_version: a new description for a live version. */
  function Describe(s: State, name: string, n: nat, description: Option<string>, now: int): (State, Outcome) {
    if name !in s.names || !Live(s.versions, s.names[name], n) then (s, NotFound)
    else
      var k := (s.names[name], n);
      (s.(versions := s.versions[k := s.versions[k].(description := description, updated := now)]), Done)
  }

  /** Setting or deleting a tag of a live version. */
  function WriteVersionTag(s: State, name: string, n: nat, key: string, value: Option<string>): (State, Outcome) {
    if name !in s.names || !Live(s.versions, s.names[name], n) then (s, NotFound)
    else
      var k := (s.names[name], n);
      var tags := if value.Some? then Merge(s.versions[k].tags, [Entry(key, value.value)])
          else Pull(s.versions[k].tags, key);
      (s.(versions := s.versions[k := s.versions[k].(tags := tags)]), Done)
  }

  datatype Op =
    | DoCreateModel(name: string, tags: seq<Entry<string>>, now: int)
    | DoRename(name: string, newName: string, now: int)
    | DoDeleteModel(name: string)
    | DoCreateVersion(name: string, draft: Draft, now: int)
    | DoDescribe(name: string, n: nat, description: Option<string>, now: int)
    | DoSetAlias(name: string, alias: string, n: nat)
    | DoDeleteAlias(name: string, alias: string)
    | DoTransition(name: string, n: nat, stage: Stage, archive: bool, now: int)
    | DoDeleteVersion(name: string, n: nat, now: int)
    | DoWriteVersionTag(name: string, n: nat, key: string, value: Option<string>)

  function Exec(s: State, op: Op): (State, Outcome)
    requires Valid(s)
  {
    match op
    case DoCreateModel(name, tags, now) => CreateModel(s, name, tags, now)
    case DoRename(name, newName, now) => RenameModel(s, name, newName, now)
    case DoDeleteModel(name) => DeleteModel(s, name)
    case DoCreateVersion(name, draft, now) => CreateVersion(s, name, NewVersion(draft, now))
    case DoDescribe(name, n, description, now) => Describe(s, name, n, description, now)
    case DoSetAlias(name, alias, n) => SetAlias(s, name, alias, n)
    case DoDeleteAlias(name, alias) => DeleteAlias(s, name, alias)
    case DoTransition(name, n, stage, archive, now) => Transition(s, name, n, stage, archive, now)
    case DoDeleteVersion(name, n, now) => DeleteVersion(s, name, n, now)
    case DoWriteVersionTag(name, n, key, value) => WriteVersionTag(s, name, n, key, value)
  }

  // ---------- what every run keeps ----------

  function Lower(c: char): char {
    if 'A' <= c <= 'Z' then c - 'A' + 'a' else c
  }

  /** `alias.lower() == "latest"`: the reserved alias. */
  predicate IsLatest(alias: string) {
    |alias| == 6 && forall i :: 0 <= i < 6 ==> Lower(alias[i]) == "latest"[i]
  }

  ghost predicate IndexOk(s: State) {
    && (forall a, b :: a in s.names && b in s.names && a != b ==> s.names[a] != s.names[b])
    && (forall a :: a in s.names ==> s.names[a] in s.models)
    && (forall id :: id in s.models ==> id < s.nextId)
  }

  /** The versions of each model are numbered 1 to its counter, deleted ones included, and no version
      is without its model. */
  ghost predicate VersionsOk(s: State) {
    && (forall k :: k in s.versions ==> k.0 in s.models && 1 <= k.1 <= s.models[k.0].counter)
    && (forall id, n :: id in s.models && 1 <= n <= s.models[id].counter ==> (id, n) in s.versions)
    && (forall k :: k in s.versions ==> UniqueKeys(s.versions[k].tags))
  }

  ghost predicate AliasesOk(aliases: seq<Entry<nat>>, versions: map<(nat, nat), Version>, id: nat) {
    && UniqueKeys(aliases)
    && forall e <- aliases :: Live(versions, id, e.v) && !IsLatest(e.k)
  }

  ghost predicate Valid(s: State) {
    && IndexOk(s)
    && VersionsOk(s)
    && forall id :: id in s.models ==> AliasesOk(s.models[id].aliases, s.versions, id)
  }

  lemma SetAliasKeepsAliases(aliases: seq<Entry<nat>>, versions: map<(nat, nat), Version>, id: nat, alias: string,
      n: nat)
    requires AliasesOk(aliases, versions, id) && Live(versions, id, n) && !IsLatest(alias)
    ensures AliasesOk(Merge(aliases, [Entry(alias, n)]), versions, id)
    ensures AliasesOk(Pull(aliases, alias), versions, id)
  {
    WritesKeepKeysUnique(aliases, [Entry(alias, n)], alias);
  }

  lemma {:induction false} PullVersionKeeps(aliases: seq<Entry<nat>>, n: nat)
    ensures forall e <- PullVersion(aliases, n) :: e in aliases && e.v != n
    ensures UniqueKeys(aliases) ==> UniqueKeys(PullVersion(aliases, n))
  {
    if aliases != [] {
      PullVersionKeeps(aliases[..|aliases| - 1], n);
    }
  }

  lemma PullKeepsAliases(aliases: seq<Entry<nat>>, versions: map<(nat, nat), Version>, id: nat, alias: string)
    requires AliasesOk(aliases, versions, id)
    ensures AliasesOk(Pull(aliases, alias), versions, id)
  {
    WritesKeepKeysUnique(aliases, [], alias);
  }

  lemma CreateModelKeepsValid(s: State, name: string, tags: seq<Entry<string>>, now: int)
    requires Valid(s)
    ensures Valid(CreateModel(s, name, tags, now).0)
  {
    if name !in s.names {
      var t := CreateModel(s, name, tags, now).0;
      assert IndexOk(t);
      assert VersionsOk(t);
    }
  }

  lemma RenameKeepsValid(s: State, name: string, newName: string, now: int)
    requires Valid(s)
    ensures Valid(RenameModel(s, name, newName, now).0)
  {
    if RenameModel(s, name, newName, now).1 == Done {
      var t := RenameModel(s, name, newName, now).0;
      assert IndexOk(t);
      assert VersionsOk(t);
    }
  }

  lemma DeleteModelKeepsValid(s: State, name: string)
    requires Valid(s)
    ensures Valid(DeleteModel(s, name).0)
  {
    if name in s.names {
      var t := DeleteModel(s, name).0;
      assert IndexOk(t);
      assert VersionsOk(t);
    }
  }

  lemma CreateVersionKeepsValid(s: State, name: string, v: Version)
    requires Valid(s) && UniqueKeys(v.tags) && v.stage != DeletedInternal
    ensures Valid(CreateVersion(s, name, v).0)
  {
    if name in s.names {
      var t := CreateVersion(s, name, v).0;
      assert IndexOk(t);
      assert VersionsOk(t);
    }
  }

  lemma AliasWriteKeepsValid(s: State, id: nat, aliases: seq<Entry<nat>>)
    requires Valid(s) && id in s.models && AliasesOk(aliases, s.versions, id)
    ensures Valid(s.(models := s.models[id := s.models[id].(aliases := aliases)]))
  {
    var t := s.(models := s.models[id := s.models[id].(aliases := aliases)]);
    assert IndexOk(t);
    assert VersionsOk(t);
  }

  lemma SetAliasKeepsValid(s: State, name: string, alias: string, n: nat)
    requires Valid(s)
    ensures Valid(SetAlias(s, name, alias, n).0)
  {
    if SetAlias(s, name, alias, n).1 == Done {
      var id := s.names[name];
      SetAliasKeepsAliases(s.models[id].aliases, s.versions, id, alias, n);
      AliasWriteKeepsValid(s, id, Merge(s.models[id].aliases, [Entry(alias, n)]));
    }
  }

  lemma DeleteAliasKeepsValid(s: State, name: string, alias: string)
    requires Valid(s)
    ensures Valid(DeleteAlias(s, name, alias).0)
  {
    if name in s.names {
      var id := s.names[name];
      PullKeepsAliases(s.models[id].aliases, s.versions, id, alias);
      AliasWriteKeepsValid(s, id, Pull(s.models[id].aliases, alias));
    }
  }

  /** Versions that change neither number nor tags nor liveness. */
  lemma SameShapeIsValid(s: State, t: State)
    requires Valid(s) && t.names == s.names && t.nextId == s.nextId
    requires t.models.Keys == s.models.Keys && t.versions.Keys == s.versions.Keys
    requires forall id :: id in s.models ==>
               t.models[id].counter == s.models[id].counter && t.models[id].aliases == s.models[id].aliases
    requires forall k :: k in s.versions ==>
               t.versions[k].tags == s.versions[k].tags && (Live(s.versions, k.0, k.1) ==> Live(t.versions, k.0, k.1))
    ensures Valid(t)
  {
    assert IndexOk(t);
    assert VersionsOk(t);
    LiveStays(s, t);
  }

  lemma TransitionKeepsValid(s: State, name: string, n: nat, stage: Stage, archive: bool, now: int)
    requires Valid(s)
    ensures Valid(Transition(s, name, n, stage, archive, now).0)
  {
    if Transition(s, name, n, stage, archive, now).1 == Done {
      SameShapeIsValid(s, Transition(s, name, n, stage, archive, now).0);
    }
  }

  lemma LiveStays(s: State, t: State)
    requires forall id :: id in s.models ==> AliasesOk(s.models[id].aliases, s.versions, id)
    requires forall id: nat, m: nat :: Live(s.versions, id, m) ==> Live(t.versions, id, m)
    requires forall id :: id in t.models ==> id in s.models && t.models[id].aliases == s.models[id].aliases
    ensures forall id :: id in t.models ==> AliasesOk(t.models[id].aliases, t.versions, id)
  {}

  lemma DeleteVersionKeepsValid(s: State, name: string, n: nat, now: int)
    requires Valid(s)
    ensures Valid(DeleteVersion(s, name, n, now).0)
  {
    if DeleteVersion(s, name, n, now).1 == Done {
      var t := DeleteVersion(s, name, n, now).0;
      PullVersionKeeps(s.models[s.names[name]].aliases, n);
      assert IndexOk(t);
      assert VersionsOk(t);
      assert forall id: nat, m: nat :: Live(s.versions, id, m) && (id, m) != (s.names[name], n) ==>
          Live(t.versions, id, m);
    }
  }

  lemma DescribeKeepsValid(s: State, name: string, n: nat, description: Option<string>, now: int)
    requires Valid(s)
    ensures Valid(Describe(s, name, n, description, now).0)
  {
    SameShapeIsValid(s, Describe(s, name, n, description, now).0);
  }

  lemma TagWriteKeepsValid(s: State, name: string, n: nat, key: string, value: Option<string>)
    requires Valid(s)
    ensures Valid(WriteVersionTag(s, name, n, key, value).0)
  {
    if WriteVersionTag(s, name, n, key, value).1 == Done {
      var t := WriteVersionTag(s, name, n, key, value).0;
      var added := if value.Some? then [Entry(key, value.value)] else [];
      WritesKeepKeysUnique(s.versions[(s.names[name], n)].tags, added, key);
      assert IndexOk(t);
      assert VersionsOk(t);
      assert forall id: nat, m: nat :: Live(s.versions, id, m) ==> Live(t.versions, id, m);
    }
  }

  lemma ExecKeepsValid(s: State, op: Op)
    requires Valid(s)
    ensures Valid(Exec(s, op).0)
  {
    match op {
      case DoCreateModel(name, tags, now) => CreateModelKeepsValid(s, name, tags, now);
      case DoRename(name, newName, now) => RenameKeepsValid(s, name, newName, now);
      case DoDeleteModel(name) => DeleteModelKeepsValid(s, name);
      case DoCreateVersion(name, draft, now) =>
        LastOfEachAsMap(draft.tags);
        CreateVersionKeepsValid(s, name, NewVersion(draft, now));
      case DoDescribe(name, n, description, now) => DescribeKeepsValid(s, name, n, description, now);
      case DoSetAlias(name, alias, n) => SetAliasKeepsValid(s, name, alias, n);
      case DoDeleteAlias(name, alias) => DeleteAliasKeepsValid(s, name, alias);
      case DoTransition(name, n, stage, archive, now) => TransitionKeepsValid(s, name, n, stage, archive, now);
      case DoDeleteVersion(name, n, now) => DeleteVersionKeepsValid(s, name, n, now);
      case DoWriteVersionTag(name, n, key, value) => TagWriteKeepsValid(s, name, n, key, value);
    }
  }

  // ---------- what each operation does ----------

  /** The reserved alias is "latest" in any mixture of cases. */
  lemma LatestAliasMeaning(alias: string)
    ensures IsLatest(alias) <==>
              && |alias| == 6 && alias[0] in {'l', 'L'} && alias[1] in {'a', 'A'} && alias[2] in {'t', 'T'}
              && alias[3] in {'e', 'E'} && alias[4] in {'s', 'S'} && alias[5] in {'t', 'T'}
  {
    var latest := "latest";
    assert latest[0] == 'l' && latest[1] == 'a' && latest[2] == 't';
    assert latest[3] == 'e' && latest[4] == 's' && latest[5] == 't';
    if |alias| == 6 {
      LowerMeaning(alias[0], 'l', 'L');
      LowerMeaning(alias[1], 'a', 'A');
      LowerMeaning(alias[2], 't', 'T');
      LowerMeaning(alias[3], 'e', 'E');
      LowerMeaning(alias[4], 's', 'S');
      LowerMeaning(alias[5], 't', 'T');
    }
  }

  lemma LowerMeaning(c: char, lower: char, upper: char)
    requires 'a' <= lower <= 'z' && upper as int == lower as int - 32
    ensures Lower(c) == lower <==> c in {lower, upper}
  {}

  /** The named version exists and is not deleted. */
  predicate Names(s: State, name: string, n: nat) {
    name in s.names && (s.names[name], n) in s.versions && s.versions[(s.names[name], n)].stage != DeletedInternal
  }

  lemma CreateModelMeaning(s: State, name: string, tags: seq<Entry<string>>, now: int)
    requires Valid(s)
    ensures var (t, r) := CreateModel(s, name, tags, now);
            if name in s.names then r == AlreadyExists && t == s
            else
              && r == Done && SameBut(s.names, t.names, {name}) && t.versions == s.versions
              && name in t.names && t.names[name] !in s.models && SameBut(s.models, t.models, {t.names[name]})
              && t.names[name] in t.models
              && var m := t.models[t.names[name]];
                 && m.counter == 0 && m.aliases == [] && m.updated == now
                 && UniqueKeys(m.tags) && AsMap(m.tags) == AsMap(tags)
  {
    LastOfEachAsMap(tags);
  }

  lemma RenameMeaning(s: State, name: string, newName: string, now: int)
    requires Valid(s)
    ensures var (t, r) := RenameModel(s, name, newName, now);
            if name !in s.names then r == NotFound && t == s
            else if newName != name && newName in s.names then r == AlreadyExists && t == s
            else
              var id := s.names[name];
              && r == Done && SameBut(s.names, t.names, {name, newName})
              && newName in t.names && t.names[newName] == id && (newName != name ==> name !in t.names)
              && SameBut(s.models, t.models, {id}) && id in t.models && t.models[id] == s.models[id].(updated := now)
              && t.versions.Keys == s.versions.Keys
              && forall k <- s.versions ::
                   t.versions[k] == if k.0 == id then s.versions[k].(updated := now) else s.versions[k]
  {}

  lemma DeleteModelMeaning(s: State, name: string)
    requires Valid(s)
    ensures var (t, r) := DeleteModel(s, name);
            if name !in s.names then r == NotFound && t == s
            else
              var id := s.names[name];
              && r == Done && SameBut(s.names, t.names, {name}) && name !in t.names
              && SameBut(s.models, t.models, {id}) && id !in t.models
              && (forall k <- t.versions :: k in s.versions && k.0 != id && t.versions[k] == s.versions[k])
              && (forall k <- s.versions :: k.0 != id ==> k in t.versions)
  {}

  lemma DraftMeaning(draft: Draft, now: int)
    ensures Drafted(draft, now, NewVersion(draft, now)) && NewVersion(draft, now).updated == now
  {
    LastOfEachAsMap(draft.tags);
  }

  lemma InsertMeaning(s: State, name: string, v: Version)
    requires Valid(s)
    ensures var (t, r) := CreateVersion(s, name, v);
            if name !in s.names then r == NotFound && t == s
            else
              var id := s.names[name];
              var n := s.models[id].counter + 1;
              && r == Created(n) && t.names == s.names
              && SameBut(s.models, t.models, {id}) && id in t.models
              && t.models[id] == s.models[id].(counter := n, updated := v.updated)
              && (id, n) !in s.versions && SameBut(s.versions, t.versions, {(id, n)}) && (id, n) in t.versions
              && t.versions[(id, n)] == v
  {}

  /** Creating a version numbers it one above all before it and stores it as it was given. */
  lemma CreateVersionMeaning(s: State, name: string, draft: Draft, now: int)
    requires Valid(s) && name in s.names
    ensures var (t, r) := Exec(s, DoCreateVersion(name, draft, now));
            var k := (s.names[name], s.models[s.names[name]].counter + 1);
            && r == Created(k.1) && k !in s.versions && SameBut(s.versions, t.versions, {k})
            && k in t.versions && Drafted(draft, now, t.versions[k])
  {
    InsertMeaning(s, name, NewVersion(draft, now));
    DraftMeaning(draft, now);
  }

  /** A version as it was given: ready, in no stage, of the given time, with the last value of every tag. */
  ghost predicate Drafted(draft: Draft, now: int, v: Version) {
    && v.stage == NoStage && v.status == "READY" && v.created == now && v.updated == now
    && v.description == draft.description && v.source == draft.source && v.storageLocation == draft.storageLocation
    && v.runId == draft.runId && v.runLink == draft.runLink && v.modelId == draft.modelId
    && v.userId.None? && v.statusMessage.None?
    && UniqueKeys(v.tags) && AsMap(v.tags) == AsMap(draft.tags)
  }

  lemma SetAliasMeaning(s: State, name: string, alias: string, n: nat)
    requires Valid(s)
    ensures var (t, r) := SetAlias(s, name, alias, n);
            && (r == Reserved <==> IsLatest(alias)) && (r == Done <==> !IsLatest(alias) && Names(s, name, n))
            && (r != Done ==> t == s && (r == NotFound || r == Reserved))
            && (r == Done ==>
                  var id := s.names[name];
                  && t.names == s.names && t.versions == s.versions
                  && SameBut(s.models, t.models, {id}) && id in t.models
                  && t.models[id].(aliases := []) == s.models[id].(aliases := [])
                  && AsMap(t.models[id].aliases) == AsMap(s.models[id].aliases)[alias := n])
  {
    if SetAlias(s, name, alias, n).1 == Done { SetAliasTarget(s.models[s.names[name]].aliases, alias, n); }
  }

  lemma DeleteAliasMeaning(s: State, name: string, alias: string)
    requires Valid(s)
    ensures var (t, r) := DeleteAlias(s, name, alias);
            if name !in s.names then r == NotFound && t == s
            else
              var id := s.names[name];
              && r == Done && t.names == s.names && t.versions == s.versions
              && SameBut(s.models, t.models, {id}) && id in t.models
              && t.models[id].(aliases := []) == s.models[id].(aliases := [])
              && AsMap(t.models[id].aliases) == AsMap(s.models[id].aliases) - {alias}
  {
    if name in s.names { PullAsMap(s.models[s.names[name]].aliases, alias); }
  }

  /** A transition moves a live version to an allowed stage and touches the model; whether it also archives
      others does not change what it does to the version. */
  lemma TransitionMeaning(s: State, name: string, n: nat, stage: Stage, archive: bool, now: int)
    requires Valid(s)
    ensures var (t, r) := Transition(s, name, n, stage, archive, now);
            var active := stage == Staging || stage == Production;
            && (r == Done <==> Names(s, name, n) && stage != DeletedInternal && (archive ==> active))
            && (r == InvalidStage <==> stage == DeletedInternal)
            && (r == NotActive <==> stage != DeletedInternal && archive && !active)
            && (r != Done ==> t == s && (r == InvalidStage || r == NotActive || r == NotFound))
            && (r == Done ==>
                  var id := s.names[name];
                  && t.names == s.names
                  && SameBut(s.models, t.models, {id}) && id in t.models
                  && t.models[id] == s.models[id].(updated := now)
                  && (id, n) in t.versions
                  && t.versions[(id, n)] == s.versions[(id, n)].(stage := stage, updated := now)
                  && t.versions.Keys == s.versions.Keys
                  && forall k <- s.versions :: k != (id, n) ==>
                       t.versions[k] == if archive && k.0 == id && s.versions[k].stage == stage
                                        then s.versions[k].(stage := Archived, updated := now) else s.versions[k])
  {}

  lemma DeleteVersionMeaning(s: State, name: string, n: nat, now: int)
    requires Valid(s)
    ensures var (t, r) := DeleteVersion(s, name, n, now);
            && (r == Done <==> Names(s, name, n)) && (r != Done ==> t == s && r == NotFound)
            && (r == Done ==>
                  var id := s.names[name];
                  && t.names == s.names && SameBut(s.models, t.models, {id}) && id in t.models
                  && t.models[id].(aliases := []) == s.models[id].(aliases := [], updated := now)
                  && (forall e :: e in t.models[id].aliases <==> e in s.models[id].aliases && e.v != n)
                  && SameBut(s.versions, t.versions, {(id, n)}) && (id, n) in t.versions
                  && Redacted(s.versions[(id, n)], now, t.versions[(id, n)]))
  {
    if Names(s, name, n) { PullVersionIsExact(s.models[s.names[name]].aliases, n); }
  }

  /** A deleted version: marked, its contents replaced or removed, and the rest kept. */
  predicate Redacted(before: Version, now: int, after: Version) {
    && after.stage == DeletedInternal && after.updated == now
    && after.description.None? && after.userId.None? && after.statusMessage.None?
    && after.source == "REDACTED-SOURCE-PATH"
    && after.runId == Some("REDACTED-RUN-ID") && after.runLink == Some("REDACTED-RUN-LINK")
    && after.storageLocation == before.storageLocation && after.status == before.status
    && after.modelId == before.modelId && after.tags == before.tags && after.created == before.created
  }

  lemma {:induction false} PullVersionIsExact(aliases: seq<Entry<nat>>, n: nat)
    ensures forall e :: e in PullVersion(aliases, n) <==> e in aliases && e.v != n
  {
    if aliases != [] {
      PullVersionIsExact(aliases[..|aliases| - 1], n);
      assert aliases == aliases[..|aliases| - 1] + [aliases[|aliases| - 1]];
    }
  }

  lemma DescribeMeaning(s: State, name: string, n: nat, description: Option<string>, now: int)
    requires Valid(s)
    ensures var (t, r) := Describe(s, name, n, description, now);
            && (r == Done <==> Names(s, name, n)) && (r != Done ==> t == s && r == NotFound)
            && (r == Done ==>
                  var k := (s.names[name], n);
                  && t == s.(versions := t.versions) && SameBut(s.versions, t.versions, {k}) && k in t.versions
                  && t.versions[k] == s.versions[k].(description := description, updated := now))
  {}

  lemma TagWriteMeaning(s: State, name: string, n: nat, key: string, value: Option<string>)
    requires Valid(s)
    ensures var (t, r) := WriteVersionTag(s, name, n, key, value);
            && (r == Done <==> Names(s, name, n)) && (r != Done ==> t == s && r == NotFound)
            && (r == Done ==>
                  var k := (s.names[name], n);
                  && t == s.(versions := t.versions) && SameBut(s.versions, t.versions, {k}) && k in t.versions
                  && t.versions[k].(tags := []) == s.versions[k].(tags := []) && UniqueKeys(t.versions[k].tags)
                  && AsMap(t.versions[k].tags) ==
                       if value.Some? then AsMap(s.versions[k].tags)[key := value.value]
                       else AsMap(s.versions[k].tags) - {key})
  {
    if Names(s, name, n) { TagArrayMeaning(s.versions[(s.names[name], n)].tags, key, value); }
  }

  lemma TagArrayMeaning(tags: seq<Entry<string>>, key: string, value: Option<string>)
    requires UniqueKeys(tags)
    ensures var after := if value.Some? then Merge(tags, [Entry(key, value.value)]) else Pull(tags, key);
            && UniqueKeys(after)
            && AsMap(after) == if value.Some? then AsMap(tags)[key := value.value] else AsMap(tags) - {key}
  {
    WritesKeepKeysUnique(tags, if value.Some? then [Entry(key, value.value)] else [], key);
    if value.Some? {
      MergeAsMap(tags, [Entry(key, value.value)]);
      AsMapOne(Entry(key, value.value));
    } else {
      PullAsMap(tags, key);
    }
  }

  // ---------- whole runs ----------

  const EMPTY := State(map[], map[], map[], 0)

  /** Run operations one after another; every state on the way is valid. */
  ghost function Run(s: State, ops: seq<Op>): (r: State)
    requires Valid(s)
    ensures Valid(r)
    decreases |ops|
  {
    if ops == [] then s
    else
      ExecKeepsValid(s, ops[0]);
      Run(Exec(s, ops[0]).0, ops[1..])
  }

  predicate Deleted(s: State, id: nat, n: nat) {
    (id, n) in s.versions && s.versions[(id, n)].stage == DeletedInternal
  }

  /** The second state keeps the deleted version as it is, but for its timestamp, or has lost it with
      its model. */
  predicate StaysDeleted(s: State, t: State, id: nat, n: nat) {
    && s.nextId <= t.nextId
    && ((id, n) in s.versions && (id, n) in t.versions ==>
        t.versions[(id, n)] == s.versions[(id, n)].(updated := t.versions[(id, n)].updated))
    && ((id, n) !in t.versions ==> id !in t.models && id < t.nextId)
  }

  lemma DeletedStep(s: State, op: Op, id: nat, n: nat)
    requires Valid(s) && Deleted(s, id, n)
    ensures StaysDeleted(s, Exec(s, op).0, id, n)
  {}

  lemma GoneStep(s: State, op: Op, id: nat)
    requires Valid(s) && id !in s.models && id < s.nextId
    ensures id !in Exec(s, op).0.models && s.nextId <= Exec(s, op).0.nextId
  {}

  lemma {:induction false} GoneForever(s: State, ops: seq<Op>, id: nat)
    requires Valid(s) && id !in s.models && id < s.nextId
    ensures id !in Run(s, ops).models && s.nextId <= Run(s, ops).nextId
    decreases |ops|
  {
    if ops != [] {
      ExecKeepsValid(s, ops[0]);
      GoneStep(s, ops[0], id);
      GoneForever(Exec(s, ops[0]).0, ops[1..], id);
    }
  }

  /** A soft-deleted version is never live again and its redacted content never changes: whatever is
      run, it is still there and deleted, or its model is gone for good. */
  lemma {:induction false} DeletedIsAbsorbing(s: State, ops: seq<Op>, id: nat, n: nat)
    requires Valid(s) && Deleted(s, id, n)
    ensures StaysDeleted(s, Run(s, ops), id, n) && !Live(Run(s, ops).versions, id, n)
    decreases |ops|
  {
    if ops != [] {
      var t := Exec(s, ops[0]).0;
      ExecKeepsValid(s, ops[0]);
      DeletedStep(s, ops[0], id, n);
      if (id, n) in t.versions {
        DeletedIsAbsorbing(t, ops[1..], id, n);
      } else {
        GoneForever(t, ops[1..], id);
      }
    }
  }

  /** The same registry with other contents in one version. */
  function WithVersion(s: State, id: nat, n: nat, v: Version): State {
    s.(versions := s.versions[(id, n) := v])
  }

  /** What a soft deletion leaves readable of a version besides its number. */
  predicate SameRemains(v: Version, w: Version) {
    && v.storageLocation == w.storageLocation && v.status == w.status && v.modelId == w.modelId
    && v.tags == w.tags && v.created == w.created
  }

  lemma WithVersionIsValid(s: State, id: nat, n: nat, w: Version)
    requires Valid(s) && Live(s.versions, id, n) && w.stage != DeletedInternal && UniqueKeys(w.tags)
    ensures Valid(WithVersion(s, id, n, w))
  {
    var t := WithVersion(s, id, n, w);
    assert IndexOk(t);
    assert VersionsOk(t);
    LiveStays(s, t);
  }

  lemma SameRemainsSameRedaction(v: Version, w: Version, now: int)
    ensures Redact(v, now) == Redact(w, now) <==> SameRemains(v, w)
  {}

  /** Deleting a version leaves one and the same registry for two different contents of the version
      exactly if they agree on what is not redacted. */
  lemma DeletionHidesTheRest(s: State, name: string, n: nat, w: Version, now: int)
    requires Valid(s) && name in s.names && Live(s.versions, s.names[name], n)
    requires w.stage != DeletedInternal && UniqueKeys(w.tags)
    ensures Valid(WithVersion(s, s.names[name], n, w))
    ensures DeleteVersion(s, name, n, now) == DeleteVersion(WithVersion(s, s.names[name], n, w), name, n, now) <==>
            SameRemains(s.versions[(s.names[name], n)], w)
  {
    var k := (s.names[name], n);
    var v, t := s.versions[k], WithVersion(s, k.0, n, w);
    WithVersionIsValid(s, k.0, n, w);
    SameRemainsSameRedaction(v, w, now);
    assert t.versions[k := Redact(w, now)] == s.versions[k := Redact(w, now)];
    assert DeleteVersion(s, name, n, now).0.versions == s.versions[k := Redact(v, now)];
    assert DeleteVersion(t, name, n, now).0.versions == s.versions[k := Redact(w, now)];
    assert s.versions[k := Redact(v, now)][k] == Redact(v, now);
    assert s.versions[k := Redact(w, now)][k] == Redact(w, now);
  }

  /** After a transition that archives, the moved version is the only one of its model in the stage;
      those it displaced are archived and every other version is as before. */
  lemma ArchivingLeavesOne(s: State, name: string, n: nat, stage: Stage, now: int)
    requires Valid(s) && Transition(s, name, n, stage, true, now).1 == Done
    ensures var t, id := Transition(s, name, n, stage, true, now).0, s.names[name];
            && t.versions.Keys == s.versions.Keys
            && (forall m: nat :: (id, m) in t.versions ==> (t.versions[(id, m)].stage == stage <==> m == n))
            && (forall k :: k in s.versions && k != (id, n) ==>
                  t.versions[k] == if k.0 == id && s.versions[k].stage == stage
                      then s.versions[k].(stage := Archived, updated := now) else s.versions[k])
  {}

  // ---------- aliases ----------

  /** What an alias of a model denotes. */
  ghost function Target(s: State, id: nat, alias: string): Option<nat> {
    if id in s.models && alias in AsMap(s.models[id].aliases) then Some(AsMap(s.models[id].aliases)[alias]) else None
  }

  function WithoutTarget(m: map<string, nat>, n: nat): map<string, nat> {
    map k | k in m && m[k] != n :: m[k]
  }

  lemma {:induction false} PullVersionAsMap(aliases: seq<Entry<nat>>, n: nat)
    requires UniqueKeys(aliases)
    ensures AsMap(PullVersion(aliases, n)) == WithoutTarget(AsMap(aliases), n)
  {
    if aliases != [] {
      var init, last := aliases[..|aliases| - 1], aliases[|aliases| - 1];
      PullVersionAsMap(init, n);
      AsMapKeys(init);
      WithoutTargetPut(AsMap(init), n, last);
      if last.v != n { AsMapSnoc(PullVersion(init, n), last); }
    }
  }

  lemma WithoutTargetPut(m: map<string, nat>, n: nat, e: Entry<nat>)
    requires e.k !in m
    ensures WithoutTarget(m[e.k := e.v], n) == if e.v == n then WithoutTarget(m, n) else WithoutTarget(m, n)[e.k := e.v]
  {}

  /** What one operation makes of one alias: only setting or deleting it, deleting the version it
      points to, or deleting the model changes it. Renaming keeps it. */
  ghost function NextTarget(s: State, op: Op, id: nat, alias: string): Option<nat>
    requires Valid(s)
  {
    var hits := op.name in s.names && s.names[op.name] == id && (Exec(s, op).1 == Done);
    if hits && op.DoSetAlias? && op.alias == alias then Some(op.n)
    else if hits && op.DoDeleteAlias? && op.alias == alias then None
    else if hits && op.DoDeleteModel? then None
    else if hits && op.DoDeleteVersion? && Target(s, id, alias) == Some(op.n) then None
    else Target(s, id, alias)
  }

  lemma SetAliasTarget(aliases: seq<Entry<nat>>, alias: string, n: nat)
    ensures AsMap(Merge(aliases, [Entry(alias, n)])) == AsMap(aliases)[alias := n]
  {
    MergeAsMap(aliases, [Entry(alias, n)]);
    AsMapOne(Entry(alias, n));
  }

  /** Operations that write no alias leave all of them, other models' aliases included. */
  lemma OthersKeepAliases(s: State, op: Op, id: nat)
    requires Valid(s) && !op.DoSetAlias? && !op.DoDeleteAlias? && !op.DoDeleteVersion? && !op.DoDeleteModel?
    ensures var t := Exec(s, op).0;
            if id in s.models then id in t.models && t.models[id].aliases == s.models[id].aliases
            else id in t.models ==> t.models[id].aliases == []
  {}

  lemma SetAliasFollows(s: State, name: string, a: string, n: nat, id: nat, alias: string)
    requires Valid(s) && SetAlias(s, name, a, n).1 == Done
    ensures Target(SetAlias(s, name, a, n).0, id, alias) == if id == s.names[name] && a == alias then Some(n)
            else Target(s, id, alias)
  {
    SetAliasTarget(s.models[s.names[name]].aliases, a, n);
  }

  lemma DeleteAliasFollows(s: State, name: string, a: string, id: nat, alias: string)
    requires Valid(s) && name in s.names
    ensures Target(DeleteAlias(s, name, a).0, id, alias) == if id == s.names[name] && a == alias then None
            else Target(s, id, alias)
  {
    PullAsMap(s.models[s.names[name]].aliases, a);
  }

  lemma DeleteVersionFollows(s: State, name: string, n: nat, now: int, id: nat, alias: string)
    requires Valid(s) && DeleteVersion(s, name, n, now).1 == Done
    ensures Target(DeleteVersion(s, name, n, now).0, id, alias)
         == if id == s.names[name] && Target(s, id, alias) == Some(n) then None else Target(s, id, alias)
  {
    PullVersionAsMap(s.models[s.names[name]].aliases, n);
  }

  lemma AliasFollowsItsWrites(s: State, op: Op, id: nat, alias: string)
    requires Valid(s)
    ensures Target(Exec(s, op).0, id, alias) == NextTarget(s, op, id, alias)
  {
    match op {
      case DoSetAlias(name, a, n) =>
        if Exec(s, op).1 == Done { SetAliasFollows(s, name, a, n, id, alias); }
      case DoDeleteAlias(name, a) =>
        if Exec(s, op).1 == Done { DeleteAliasFollows(s, name, a, id, alias); }
      case DoDeleteVersion(name, n, now) =>
        if Exec(s, op).1 == Done { DeleteVersionFollows(s, name, n, now, id, alias); }
      case DoDeleteModel(name) =>
      case _ => OthersKeepAliases(s, op, id);
    }
  }

  /** The operation writes this alias of the model, deletes the version it points to, or deletes the model. */
  predicate Disturbs(s: State, op: Op, id: nat, alias: string, n: nat) {
    && op.name in s.names && s.names[op.name] == id
    && (op.DoDeleteModel? || (op.DoDeleteVersion? && op.n == n) ||
        ((op.DoSetAlias? || op.DoDeleteAlias?) && op.alias == alias))
  }

  ghost predicate Undisturbed(s: State, ops: seq<Op>, id: nat, alias: string, n: nat)
    requires Valid(s)
    decreases |ops|
  {
    ops == [] ||
    (ExecKeepsValid(s, ops[0]);
     !Disturbs(s, ops[0], id, alias, n) && Undisturbed(Exec(s, ops[0]).0, ops[1..], id, alias, n))
  }

  /** Once set, an alias leads to its live version through any run without an operation of those
      kinds, whatever else is created, renamed, moved or deleted. */
  lemma {:induction false} AliasSurvives(s: State, ops: seq<Op>, id: nat, alias: string, n: nat)
    requires Valid(s) && Target(s, id, alias) == Some(n) && Undisturbed(s, ops, id, alias, n)
    ensures Target(Run(s, ops), id, alias) == Some(n) && Live(Run(s, ops).versions, id, n)
    decreases |ops|
  {
    if ops == [] {
      LiveTarget(s, id, alias);
    } else {
      ExecKeepsValid(s, ops[0]);
      AliasFollowsItsWrites(s, ops[0], id, alias);
      AliasSurvives(Exec(s, ops[0]).0, ops[1..], id, alias, n);
    }
  }

  /** In a valid registry every alias leads to a live version of its own model. */
  lemma LiveTarget(s: State, id: nat, alias: string)
    requires Valid(s) && Target(s, id, alias).Some?
    ensures Live(s.versions, id, Target(s, id, alias).value) && !IsLatest(alias)
  {
    var i := EntryOf(s.models[id].aliases, alias);
    assert s.models[id].aliases[i] in s.models[id].aliases;
  }

  /** The query behind the reserved alias: the highest-numbered version that is not deleted. */
  function LatestLive(versions: map<(nat, nat), Version>, id: nat, upTo: nat): (r: Option<nat>)
    ensures r.None? ==> forall n: nat :: 1 <= n <= upTo ==> !Live(versions, id, n)
    ensures r.Some? ==> 1 <= r.value <= upTo && Live(versions, id, r.value)
    ensures r.Some? ==> forall n: nat :: r.value < n <= upTo ==> !Live(versions, id, n)
  {
    if upTo == 0 then None else if Live(versions, id, upTo) then Some(upTo) else LatestLive(versions, id, upTo - 1)
  }

  datatype Lookup = Found(n: nat) | NoModel | NoAlias | NoVersions | MissingTarget

  /** The store: each repository call is one assignment to a collection. */
  class RegistryStore {
    var names: map<string, nat>
    var models: map<nat, Model>
    var versions: map<(nat, nat), Version>
    var nextId: nat

    function Db(): State
      reads this
    {
      State(names, models, versions, nextId)
    }

    constructor ()
      ensures Db() == EMPTY && Valid(Db())
    {
      names, models, versions, nextId := map[], map[], map[], 0;
    }

    method CreateRegisteredModel(name: string, tags: seq<Entry<string>>, now: int) returns (r: Outcome)
      requires Valid(Db())
      modifies this
      ensures Valid(Db()) && (Db(), r) == CreateModel(old(Db()), name, tags, now)
    {
      CreateModelKeepsValid(Db(), name, tags, now);
      var dict := TagsByKey(tags);
      if name in names { return AlreadyExists; }
      names, models, nextId := names[name := nextId], models[nextId := Model(0, [], dict, now)], nextId + 1;
      return Done;
    }

    method RenameRegisteredModel(name: string, newName: string, now: int) returns (r: Outcome)
      requires Valid(Db())
      modifies this
      ensures Valid(Db()) && (Db(), r) == RenameModel(old(Db()), name, newName, now)
    {
      RenameKeepsValid(Db(), name, newName, now);
      if name !in names { return NotFound; }
      if newName in names && newName != name { return AlreadyExists; }
      var id := names[name];
      names := (names - {name})[newName := id];
      models := models[id := models[id].(updated := now)];
      versions := TouchAll(versions, id, now);
      return Done;
    }

    method DeleteRegisteredModel(name: string) returns (r: Outcome)
      requires Valid(Db())
      modifies this
      ensures Valid(Db()) && (Db(), r) == DeleteModel(old(Db()), name)
    {
      DeleteModelKeepsValid(Db(), name);
      if name !in names { return NotFound; }
      var id := names[name];
      names, models := names - {name}, models - {id};
      versions := DropAll(versions, id);
      return Done;
    }

    /** Allocates, then inserts; the unique index never objects. */
    method CreateModelVersion(name: string, draft: Draft, now: int) returns (r: Outcome)
      requires Valid(Db())
      modifies this
      ensures Valid(Db()) && (Db(), r) == Exec(old(Db()), DoCreateVersion(name, draft, now))
    {
      ExecKeepsValid(Db(), DoCreateVersion(name, draft, now));
      var dict := TagsByKey(draft.tags);
      if name !in names { return NotFound; }
      var id := names[name];
      var version := models[id].counter + 1;
      models := models[id := models[id].(counter := version, updated := now)];
      if (id, version) in versions {
        assert false;
      } else {
        var document := Version(NoStage, draft.description, draft.source, draft.storageLocation, draft.runId,
                                draft.runLink, READY, None, None, draft.modelId, dict, now, now);
        versions := versions[(id, version) := document];
        return Created(version);
      }
    }

    method UpdateModelVersion(name: string, version: nat, description: Option<string>, now: int) returns (r: Outcome)
      requires Valid(Db())
      modifies this
      ensures Valid(Db()) && (Db(), r) == Describe(old(Db()), name, version, description, now)
    {
      DescribeKeepsValid(Db(), name, version, description, now);
      if name !in names { return NotFound; }
      var id := names[name];
      if !Live(versions, id, version) { return NotFound; }
      versions := versions[(id, version) := versions[(id, version)].(description := description, updated := now)];
      return Done;
    }

    method SetRegisteredModelAlias(name: string, alias: string, version: nat) returns (r: Outcome)
      requires Valid(Db())
      modifies this
      ensures Valid(Db()) && (Db(), r) == SetAlias(old(Db()), name, alias, version)
    {
      SetAliasKeepsValid(Db(), name, alias, version);
      if IsLatest(alias) { return Reserved; }
      if name !in names || !Live(versions, names[name], version) { return NotFound; }
      var id := names[name];
      models := models[id := models[id].(aliases := Merge(models[id].aliases, [Entry(alias, version)]))];
      return Done;
    }

    method DeleteRegisteredModelAlias(name: string, alias: string) returns (r: Outcome)
      requires Valid(Db())
      modifies this
      ensures Valid(Db()) && (Db(), r) == DeleteAlias(old(Db()), name, alias)
    {
      DeleteAliasKeepsValid(Db(), name, alias);
      if name !in names { return NotFound; }
      var id := names[name];
      models := models[id := models[id].(aliases := Pull(models[id].aliases, alias))];
      return Done;
    }

    /** Moves the version, archives the others, and touches the model. */
    method TransitionModelVersionStage(name: string, version: nat, stage: Stage, archive: bool, now: int)
        returns (r: Outcome)
      requires Valid(Db())
      modifies this
      ensures Valid(Db()) && (Db(), r) == Transition(old(Db()), name, version, stage, archive, now)
    {
      TransitionKeepsValid(Db(), name, version, stage, archive, now);
      if stage == DeletedInternal { return InvalidStage; }
      if archive && stage !in {Staging, Production} { return NotActive; }
      if name !in names { return NotFound; }
      var id := names[name];
      if !Live(versions, id, version) { return NotFound; }
      versions := versions[(id, version) := versions[(id, version)].(stage := stage, updated := now)];
      if archive { versions := ArchiveOthers(versions, id, version, stage, now); }
      models := models[id := models[id].(updated := now)];
      return Done;
    }

    /** Redacts and marks the version, then pulls its aliases. */
    method DeleteModelVersion(name: string, version: nat, now: int) returns (r: Outcome)
      requires Valid(Db())
      modifies this
      ensures Valid(Db()) && (Db(), r) == DeleteVersion(old(Db()), name, version, now)
    {
      DeleteVersionKeepsValid(Db(), name, version, now);
      if name !in names { return NotFound; }
      var id := names[name];
      if !Live(versions, id, version) { return NotFound; }
      versions := versions[(id, version) := Redact(versions[(id, version)], now)];
      models := models[id := models[id].(aliases := PullVersion(models[id].aliases, version), updated := now)];
      return Done;
    }

    method SetModelVersionTag(name: string, version: nat, key: string, value: string) returns (r: Outcome)
      requires Valid(Db())
      modifies this
      ensures Valid(Db()) && (Db(), r) == WriteVersionTag(old(Db()), name, version, key, Some(value))
    {
      TagWriteKeepsValid(Db(), name, version, key, Some(value));
      if name !in names { return NotFound; }
      var k := (names[name], version);
      if !Live(versions, k.0, version) { return NotFound; }
      versions := versions[k := versions[k].(tags := Merge(versions[k].tags, [Entry(key, value)]))];
      return Done;
    }

    method DeleteModelVersionTag(name: string, version: nat, key: string) returns (r: Outcome)
      requires Valid(Db())
      modifies this
      ensures Valid(Db()) && (Db(), r) == WriteVersionTag(old(Db()), name, version, key, None)
    {
      TagWriteKeepsValid(Db(), name, version, key, None);
      if name !in names { return NotFound; }
      var k := (names[name], version);
      if !Live(versions, k.0, version) { return NotFound; }
      versions := versions[k := versions[k].(tags := Pull(versions[k].tags, key))];
      return Done;
    }

    /** Alias lookup, the first stored alias of that name. It never meets a missing version: it finds
        the live version the alias denotes, or for the reserved alias the highest live one. */
    method GetModelVersionByAlias(name: string, alias: string) returns (r: Lookup)
      requires Valid(Db())
      ensures name !in names <==> r == NoModel
      ensures r != MissingTarget
      ensures name in names && !IsLatest(alias) ==>
                r == if Target(Db(), names[name], alias).Some? then Found(Target(Db(), names[name], alias).value)
                    else NoAlias
      ensures name in names && IsLatest(alias) ==>
                r == NoVersions || (r.Found? && forall n: nat :: Live(versions, names[name], n) ==> n <= r.n)
      ensures r == NoVersions ==> forall n: nat :: !Live(versions, names[name], n)
      ensures r.Found? ==> Live(versions, names[name], r.n)
    {
      if name !in names { return NoModel; }
      var id := names[name];
      if IsLatest(alias) {
        var latest := LatestLive(versions, id, models[id].counter);
        return if latest.None? then NoVersions else Found(latest.value);
      }
      var aliases := models[id].aliases;
      AsMapKeys(aliases);
      for i := 0 to |aliases|
        invariant forall j :: 0 <= j < i ==> aliases[j].k != alias
      {
        if aliases[i].k == alias {
          UniqueLookup(aliases, aliases[i]);
          if Live(versions, id, aliases[i].v) { return Found(aliases[i].v); }
          assert false;
        }
      }
      return NoAlias;
    }
  }
}
