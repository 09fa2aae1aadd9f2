/** Services and the projects that refer to them, under create, delete, reload and rescan. */
module ServerManager {
  import opened Wrappers

  datatype Service = Service(name: string, version: string, dir: string, schema: string)

  datatype Project = Project(serviceId: string, config: string, valid: bool)

  type Services = map<string, Service>
  type Projects = map<string, Project>

  /** Merging a project's config with a service's schema: the merged config, or None if it is refused. */
  type ConfigCheck = (Service, string) -> Option<string>

  /** validateProject: a missing service or a refused config makes the project invalid. */
  function Validated(check: ConfigCheck, p: Project, services: Services): Project {
    if p.serviceId !in services then p.(valid := false)
    else
      match check(services[p.serviceId], p.config)
      case None => p.(valid := false)
      case Some(merged) => p.(config := merged, valid := true)
  }

  /**
   After validation a project is valid exactly if its service exists and accepts its config. It then has
   the merged config; otherwise its config stays. Nothing else changes.
   */
  lemma ValidatedIff(check: ConfigCheck, p: Project, services: Services)
    ensures var q := Validated(check, p, services);
            && q.serviceId == p.serviceId
            && (q.valid <==> exists s, merged :: p.serviceId in services && services[p.serviceId] == s && check(s, p.config) == Some(merged))
            && (forall merged :: p.serviceId in services && check(services[p.serviceId], p.config) == Some(merged) ==> q.config == merged)
            && (!q.valid ==> q.config == p.config)
  {
    if p.serviceId in services {
      var s := services[p.serviceId];
      match check(s, p.config)
      case None =>
      case Some(merged) => assert check(s, p.config) == Some(merged);
    }
  }

  ghost predicate NoDangling(services: Services, projects: Projects) {
    forall id :: id in projects && projects[id].valid ==> projects[id].serviceId in services
  }

  datatype Stats = Stats(
    added: nat, removed: nat, updated: nat, same: nat,
    revalidated: nat, becameValid: nat, becameInvalid: nat, remainedInvalid: nat, invalidIds: seq<string>)

  predicate Changed(prev: Service, cur: Service) {
    prev.name != cur.name || prev.version != cur.version || prev.dir != cur.dir || prev.schema != cur.schema
  }

  /** A rescan calls a service unchanged exactly if all it knows of it is the same. */
  lemma UnchangedIff(prev: Service, cur: Service)
    ensures !Changed(prev, cur) <==> prev == cur
  {
  }

  ghost function Updated(before: Services, after: Services): set<string> {
    set id | id in after && id in before && Changed(before[id], after[id])
  }

  ghost function Kept(before: Services, after: Services): set<string> {
    set id | id in after && id in before && !Changed(before[id], after[id])
  }

  /** Of the projects, those whose validity goes from `was` to `becomes`. */
  ghost function Turned(before: Projects, after: Projects, was: bool, becomes: bool): set<string> {
    set id | id in before && id in after && before[id].valid == was && after[id].valid == becomes
  }

  /** How many of the handled keys, those no longer in rest, are in s. */
  ghost function Count(keys: set<string>, rest: set<string>, s: set<string>): nat {
    |(keys - rest) * s|
  }

  /** One more key handled: it counts if it is in s. */
  lemma CountStep(keys: set<string>, rest: set<string>, id: string, s: set<string>)
    requires id in rest && rest <= keys
    ensures Count(keys, rest - {id}, s) == Count(keys, rest, s) + (if id in s then 1 else 0)
  {
    var done := keys - rest;
    assert keys - (rest - {id}) == done + {id};
    if id in s {
      assert (done + {id}) * s == done * s + {id};
    } else {
      assert (done + {id}) * s == done * s;
    }
  }

  /** The list names exactly the handled projects that end up invalid. */
  ghost predicate Lists(ids: seq<string>, all: Projects, keys: set<string>, rest: set<string>)
    requires keys == all.Keys
  {
    forall id :: id in ids <==> id in keys && id !in rest && !all[id].valid
  }

  lemma ListsNone(all: Projects, keys: set<string>)
    requires keys == all.Keys
    ensures Lists([], all, keys, keys)
  {
  }

  lemma ListsStep(ids: seq<string>, all: Projects, keys: set<string>, rest: set<string>, id: string)
    requires keys == all.Keys && id in rest && rest <= keys && Lists(ids, all, keys, rest)
    ensures Lists(if all[id].valid then ids else ids + [id], all, keys, rest - {id})
  {
  }

  lemma ListsAll(ids: seq<string>, all: Projects, keys: set<string>)
    requires keys == all.Keys && Lists(ids, all, keys, {})
    ensures forall id :: id in ids <==> id in all && !all[id].valid
  {
  }

  lemma AllCounted(keys: set<string>, s: set<string>)
    requires s <= keys
    ensures Count(keys, keys, s) == 0 && Count(keys, {}, s) == |s|
  {
    assert (keys - keys) * s == {} && (keys - {}) * s == s;
  }

  lemma UnionSize(a: set<string>, b: set<string>, c: set<string>)
    requires a !! b && c == a + b
    ensures |c| == |a| + |b|
  {
  }

  lemma Common(before: Services, after: Services)
    ensures Updated(before, after) !! Kept(before, after)
    ensures Updated(before, after) + Kept(before, after) == before.Keys * after.Keys
  {
  }

  /** Each new service is added, updated or kept; each old one removed, updated or kept. */
  lemma ServicesConserved(before: Services, after: Services)
    ensures |after.Keys - before.Keys| + |Updated(before, after)| + |Kept(before, after)| == |after|
    ensures |before.Keys - after.Keys| + |Updated(before, after)| + |Kept(before, after)| == |before|
  {
    hide Updated, Kept;
    Common(before, after);
    SetsConserved(before.Keys, after.Keys, Updated(before, after), Kept(before, after));
  }

  lemma SetsConserved(a: set<string>, b: set<string>, u: set<string>, k: set<string>)
    requires u !! k && u + k == a * b
    ensures |b - a| + |u| + |k| == |b| && |a - b| + |u| + |k| == |a|
  {
    UnionSize(u, k, a * b);
    SplitSize(a, b);
    SplitSize(b, a);
    assert b * a == a * b;
  }

  lemma SplitSize(a: set<string>, b: set<string>)
    ensures |a - b| + |a * b| == |a|
  {
    assert a == (a - b) + (a * b);
  }

  lemma ServiceKinds(before: Services, after: Services)
    ensures Updated(before, after) <= after.Keys && Kept(before, after) <= after.Keys
    ensures forall id :: id in after ==>
      && (id in Updated(before, after) <==> id in before && Changed(before[id], after[id]))
      && (id in Kept(before, after) <==> id in before && !Changed(before[id], after[id]))
  {
  }

  lemma RevalidatedKinds(check: ConfigCheck, before: Projects, services: Services)
    ensures Revalidated(check, before, services).Keys == before.Keys
    ensures forall id :: id in before ==> Revalidated(check, before, services)[id] == Validated(check, before[id], services)
  {
  }

  lemma TurnedKinds(before: Projects, after: Projects, was: bool, becomes: bool)
    ensures Turned(before, after, was, becomes) <= before.Keys
    ensures forall id :: id in before && id in after ==>
      (id in Turned(before, after, was, becomes) <==> before[id].valid == was && after[id].valid == becomes)
  {
  }

  // ----- runs of operations

  datatype Registry = Registry(services: Services, projects: Projects)

  /** The operations, with what the file system and the scanner make of them. */
  datatype Operation =
    | Create(id: string, requestValid: bool, directoryExists: bool, filesWritten: bool, loaded: Option<(string, Service)>)
    | Delete(id: string, force: bool, directoryRemoved: bool)
    | Reload(id: string, reloaded: Option<Service>)
    | Rescan(found: Services, revalidateProjects: bool, check: ConfigCheck)

  ghost function After(r: Registry, op: Operation): Registry {
    match op
    case Create(id, requestValid, directoryExists, filesWritten, loaded) =>
      if requestValid && id !in r.services && !directoryExists && filesWritten && loaded.Some?
      then r.(services := r.services[loaded.value.0 := loaded.value.1])
      else r
    case Delete(id, force, directoryRemoved) =>
      if id !in r.services || (!force && Referring(r.projects, id) != {}) then r
      else Registry(if directoryRemoved then r.services - {id} else r.services, Invalidated(r.projects, id))
    case Reload(id, loaded) =>
      if id in r.services && loaded.Some? then r.(services := r.services[id := loaded.value]) else r
    case Rescan(found, revalidateProjects, check) =>
      Registry(found, if revalidateProjects then Revalidated(check, r.projects, found) else r.projects)
  }

  /** The valid projects whose service a rescan no longer finds. */
  ghost function Orphans(services: Services, projects: Projects, found: Services): set<string> {
    set p | p in projects && projects[p].valid && projects[p].serviceId in services.Keys - found.Keys
  }

  /** Whether an operation leaves every valid project its service: all do, but for a bare rescan with orphans. */
  ghost predicate Keeps(r: Registry, op: Operation) {
    op.Rescan? && !op.revalidateProjects ==> Orphans(r.services, r.projects, op.found) == {}
  }

  ghost predicate Intact(r: Registry) {
    NoDangling(r.services, r.projects)
  }

  lemma RescanKeepsIff(r: Registry, found: Services, revalidateProjects: bool, check: ConfigCheck)
    requires Intact(r)
    ensures Intact(After(r, Rescan(found, revalidateProjects, check)))
       <==> revalidateProjects || Orphans(r.services, r.projects, found) == {}
  {
    if revalidateProjects {
      RevalidatedSafe(check, r.projects, found);
    } else if Orphans(r.services, r.projects, found) != {} {
      var p :| p in Orphans(r.services, r.projects, found);
      assert r.projects[p].serviceId !in found;
    } else {
      forall p | p in r.projects && r.projects[p].valid
        ensures r.projects[p].serviceId in found
      {
        assert p !in Orphans(r.services, r.projects, found);
      }
    }
  }

  lemma AfterRescan(r: Registry, found: Services, revalidateProjects: bool, check: ConfigCheck)
    ensures After(r, Rescan(found, revalidateProjects, check))
         == Registry(found, if revalidateProjects then Revalidated(check, r.projects, found) else r.projects)
  {
  }

  lemma RescanFits(r: Registry, found: Services, revalidateProjects: bool, check: ConfigCheck)
    ensures Intact(r) ==>
      (Intact(After(r, Rescan(found, revalidateProjects, check)))
       <==> revalidateProjects || Orphans(r.services, r.projects, found) == {})
  {
    if Intact(r) {
      RescanKeepsIff(r, found, revalidateProjects, check);
    }
  }

  lemma StepIntactIff(r: Registry, op: Operation)
    requires Intact(r)
    ensures Intact(After(r, op)) <==> Keeps(r, op)
  {
    match op
    case Rescan(found, revalidateProjects, check) => RescanKeepsIff(r, found, revalidateProjects, check);
    case Delete(id, _, _) =>
      hide Validated, Orphans;
      InvalidatedSafe(r.services, r.projects, id);
    case _ =>
  }

  ghost function AfterAll(r: Registry, ops: seq<Operation>): Registry {
    if ops == [] then r else After(AfterAll(r, ops[..|ops| - 1]), ops[|ops| - 1])
  }

  lemma AfterNext(r: Registry, ops: seq<Operation>, k: nat)
    requires k < |ops|
    ensures AfterAll(r, ops[..k + 1]) == After(AfterAll(r, ops[..k]), ops[k])
  {
    hide After;
    assert ops[..k + 1][..k] == ops[..k];
  }

  lemma {:induction false} IntactSoFar(r: Registry, ops: seq<Operation>, k: nat)
    requires Intact(r) && k <= |ops|
    requires forall i :: 0 <= i < k ==> Keeps(AfterAll(r, ops[..i]), ops[i])
    ensures Intact(AfterAll(r, ops[..k]))
  {
    hide After, Keeps, Intact;
    if k > 0 {
      IntactSoFar(r, ops, k - 1);
      AfterNext(r, ops, k - 1);
      StepIntactIff(AfterAll(r, ops[..k - 1]), ops[k - 1]);
    }
  }

  /**
   Every run of creates, deletes, reloads and rescans: no valid project ever names a missing service,
   exactly if no rescan without revalidation drops a service that a valid project names at that time.
   */
  lemma RunIntactIff(r: Registry, ops: seq<Operation>)
    requires Intact(r)
    ensures (forall k :: 0 <= k <= |ops| ==> Intact(AfterAll(r, ops[..k])))
       <==> (forall k :: 0 <= k < |ops| ==> Keeps(AfterAll(r, ops[..k]), ops[k]))
  {
    hide After, Keeps, Intact, AfterAll;
    if forall k :: 0 <= k < |ops| ==> Keeps(AfterAll(r, ops[..k]), ops[k]) {
      forall k | 0 <= k <= |ops|
        ensures Intact(AfterAll(r, ops[..k]))
      {
        IntactSoFar(r, ops, k);
      }
    }
    if forall k :: 0 <= k <= |ops| ==> Intact(AfterAll(r, ops[..k])) {
      forall k | 0 <= k < |ops|
        ensures Keeps(AfterAll(r, ops[..k]), ops[k])
      {
        AfterNext(r, ops, k);
        StepIntactIff(AfterAll(r, ops[..k]), ops[k]);
      }
    }
  }

  /** A rescan without revalidation that finds nothing leaves a valid project without its service. */
  lemma BareRescanMayOrphan(s: Service, check: ConfigCheck) returns (r: Registry, op: Operation)
    ensures r == Registry(map["s" := s], map["p" := Project("s", "", true)]) && op == Rescan(map[], false, check)
    ensures Intact(r) && !Intact(After(r, op))
  {
    r, op := Registry(map["s" := s], map["p" := Project("s", "", true)]), Rescan(map[], false, check);
    assert "p" in After(r, op).projects;
  }

  class ServerManager {
    var services: Services
    var projects: Projects

    constructor (services: Services, projects: Projects)
      ensures this.services == services && this.projects == projects
    {
      this.services, this.projects := services, projects;
    }

    ghost function State(): Registry
      reads this
    {
      Registry(services, projects)
    }

    /** The counting loop over the new services. */
    method CountPresent(before: Services) returns (added: nat, updated: nat, same: nat)
      ensures added == |services.Keys - before.Keys|
      ensures updated == |Updated(before, services)| && same == |Kept(before, services)|
    {
      hide Updated, Kept, Changed, Count;
      ServiceKinds(before, services);
      ghost var keys, news, changed, kept := services.Keys, services.Keys - before.Keys, Updated(before, services), Kept(before, services);
      AllCounted(keys, news);
      AllCounted(keys, changed);
      AllCounted(keys, kept);
      added, updated, same := 0, 0, 0;
      var rest := services.Keys;
      while rest != {}
        invariant rest <= keys
        invariant added == Count(keys, rest, news)
        invariant updated == Count(keys, rest, changed)
        invariant same == Count(keys, rest, kept)
        decreases rest
      {
        var id :| id in rest;
        CountStep(keys, rest, id, news);
        CountStep(keys, rest, id, changed);
        CountStep(keys, rest, id, kept);
        if id !in before {
          added := added + 1;
        } else if Changed(before[id], services[id]) {
          updated := updated + 1;
        } else {
          same := same + 1;
        }
        rest := rest - {id};
      }
    }

    /** The counting loop over the old services. */
    method CountRemoved(before: Services) returns (removed: nat)
      ensures removed == |before.Keys - services.Keys|
    {
      hide Count;
      ghost var keys, gone := before.Keys, before.Keys - services.Keys;
      AllCounted(keys, gone);
      removed := 0;
      var rest := before.Keys;
      while rest != {}
        invariant rest <= keys && removed == Count(keys, rest, gone)
        decreases rest
      {
        var id :| id in rest;
        CountStep(keys, rest, id, gone);
        if id !in services {
          removed := removed + 1;
        }
        rest := rest - {id};
      }
    }

    /** validateProject on a project in place; also says whether it was and is valid. */
    method ValidateProject(id: string, check: ConfigCheck) returns (wasValid: bool, nowValid: bool)
      requires id in projects
      modifies this`projects
      ensures projects == old(projects)[id := Validated(check, old(projects)[id], services)]
      ensures wasValid == old(projects)[id].valid && nowValid == projects[id].valid
    {
      hide Validated;
      wasValid := projects[id].valid;
      projects := projects[id := Validated(check, projects[id], services)];
      nowValid := projects[id].valid;
    }

    /** The revalidation loop: every project is validated once against the current services. */
    method Revalidate(check: ConfigCheck) returns (count: nat, becameValid: nat, becameInvalid: nat, remainedInvalid: nat, invalidIds: seq<string>)
      modifies this`projects
      ensures projects == Revalidated(check, old(projects), services)
      ensures count == |old(projects)|
      ensures becameValid == |Turned(old(projects), projects, false, true)|
      ensures becameInvalid == |Turned(old(projects), projects, true, false)|
      ensures remainedInvalid == |Turned(old(projects), projects, false, false)|
      ensures |invalidIds| == becameInvalid + remainedInvalid
      ensures forall id :: id in invalidIds <==> id in projects && !projects[id].valid
    {
      hide Validated, Turned, Count, Revalidated, Lists;
      ghost var before, all := projects, Revalidated(check, projects, services);
      RevalidatedKinds(check, projects, services);
      TurnedKinds(projects, all, false, true);
      TurnedKinds(projects, all, true, false);
      TurnedKinds(projects, all, false, false);
      ghost var up, down, stay := Turned(projects, all, false, true), Turned(projects, all, true, false), Turned(projects, all, false, false);
      ghost var keys := projects.Keys;
      AllCounted(keys, keys);
      AllCounted(keys, up);
      AllCounted(keys, down);
      AllCounted(keys, stay);
      ListsNone(all, keys);
      count, becameValid, becameInvalid, remainedInvalid, invalidIds := 0, 0, 0, 0, [];
      var rest := projects.Keys;
      while rest != {}
        invariant projects.Keys == keys && rest <= keys
        invariant forall id :: id in rest ==> projects[id] == before[id]
        invariant forall id :: id in keys && id !in rest ==> projects[id] == all[id]
        invariant count == Count(keys, rest, keys) && becameValid == Count(keys, rest, up)
        invariant becameInvalid == Count(keys, rest, down) && remainedInvalid == Count(keys, rest, stay)
        invariant |invalidIds| == becameInvalid + remainedInvalid
        invariant Lists(invalidIds, all, keys, rest)
        decreases rest
      {
        var id :| id in rest;
        CountStep(keys, rest, id, keys);
        CountStep(keys, rest, id, up);
        CountStep(keys, rest, id, down);
        CountStep(keys, rest, id, stay);
        ListsStep(invalidIds, all, keys, rest, id);
        var wasValid, nowValid := ValidateProject(id, check);
        count := count + 1;
        if nowValid {
          if !wasValid {
            becameValid := becameValid + 1;
          }
        } else {
          if wasValid {
            becameInvalid := becameInvalid + 1;
          } else {
            remainedInvalid := remainedInvalid + 1;
          }
          invalidIds := invalidIds + [id];
        }
        rest := rest - {id};
      }
      ListsAll(invalidIds, all, keys);
    }

    /**
     rescanServices: takes over the services found on disk, counts what changed and, if asked to,
     validates every project again.
     */
    method RescanServices(found: Services, revalidateProjects: bool, check: ConfigCheck) returns (stats: Stats)
      modifies this
      ensures services == found
      ensures projects == if revalidateProjects then Revalidated(check, old(projects), found) else old(projects)
      ensures stats.added + stats.updated + stats.same == |found|
      ensures stats.removed + stats.updated + stats.same == |old(services)|
      ensures stats.added == |found.Keys - old(services).Keys| && stats.updated == |Updated(old(services), found)|
      ensures revalidateProjects ==>
        && stats.revalidated == |old(projects)|
        && stats.becameValid == |Turned(old(projects), projects, false, true)|
        && stats.becameInvalid == |Turned(old(projects), projects, true, false)|
        && stats.becameInvalid + stats.remainedInvalid == |stats.invalidIds|
        && (forall id :: id in stats.invalidIds <==> id in projects && !projects[id].valid)
      ensures State() == After(old(State()), Rescan(found, revalidateProjects, check))
      ensures NoDangling(old(services), old(projects)) ==>
        (NoDangling(services, projects) <==> revalidateProjects || Orphans(old(services), old(projects), found) == {})
    {
      hide Updated, Kept, Turned, Revalidated, NoDangling, Orphans, After, Referring, Invalidated;
      AfterRescan(State(), found, revalidateProjects, check);
      RescanFits(State(), found, revalidateProjects, check);
      var oldServices := services;
      services := found;
      var added, updated, same := CountPresent(oldServices);
      var removed := CountRemoved(oldServices);
      ServicesConserved(oldServices, found);
      stats := Stats(added, removed, updated, same, 0, 0, 0, 0, []);
      if revalidateProjects {
        var count, becameValid, becameInvalid, remainedInvalid, invalidIds := Revalidate(check);
        stats := Stats(added, removed, updated, same, count, becameValid, becameInvalid, remainedInvalid, invalidIds);
      }
    }

    /**
     createService, as far as it decides the outcome: the request passes the checks, the id and its
     directory are free, the files are written, and what is loaded back is inserted under its own id.
     */
    method CreateService(id: string, requestValid: bool, directoryExists: bool, filesWritten: bool,
                         loaded: Option<(string, Service)>) returns (success: bool)
      modifies this`services
      ensures success <==> requestValid && id !in old(services) && !directoryExists && filesWritten && loaded.Some?
      ensures services == if success then old(services)[loaded.value.0 := loaded.value.1] else old(services)
      ensures State() == After(old(State()), Create(id, requestValid, directoryExists, filesWritten, loaded))
      ensures NoDangling(old(services), projects) ==> NoDangling(services, projects)
    {
      success := false;
      if !requestValid || id in services || directoryExists || !filesWritten || loaded.None? {
        return;
      }
      services := services[loaded.value.0 := loaded.value.1];
      success := true;
    }

    /**
     deleteService: refused while projects refer to the service, unless forced; forcing invalidates them
     first, even if the directory then cannot be removed.
     */
    method DeleteService(id: string, force: bool, directoryRemoved: bool) returns (success: bool)
      modifies this
      ensures var blocked := id !in old(services) || (!force && Referring(old(projects), id) != {});
              && (success <==> !blocked && directoryRemoved)
              && services == (if success then old(services) - {id} else old(services))
              && projects == (if blocked then old(projects) else Invalidated(old(projects), id))
      ensures State() == After(old(State()), Delete(id, force, directoryRemoved))
      ensures projects.Keys == old(projects).Keys
      ensures forall p :: p in projects ==>
                projects[p] == old(projects)[p] || (old(projects)[p].serviceId == id && projects[p] == old(projects)[p].(valid := false))
      ensures NoDangling(old(services), old(projects)) ==> NoDangling(services, projects)
    {
      success := false;
      if id !in services {
        return;
      }
      var associated: seq<string> := [];
      var rest := projects.Keys;
      while rest != {}
        invariant rest <= projects.Keys
        invariant forall p :: p in associated <==> p in projects && p !in rest && projects[p].serviceId == id
        decreases rest
      {
        var p :| p in rest;
        if projects[p].serviceId == id {
          associated := associated + [p];
        }
        rest := rest - {p};
      }
      NoneReferring(projects, id, associated);
      if associated != [] && !force {
        return;
      }
      if force {
        var i := 0;
        while i < |associated|
          invariant 0 <= i <= |associated| && services == old(services)
          invariant projects.Keys == old(projects).Keys
          invariant forall p :: p in projects ==>
            projects[p] == if p in associated[..i] then old(projects)[p].(valid := false) else old(projects)[p]
        {
          projects := projects[associated[i] := projects[associated[i]].(valid := false)];
          assert associated[..i + 1] == associated[..i] + [associated[i]];
          i := i + 1;
        }
        assert associated[..|associated|] == associated;
      }
      assert projects == Invalidated(old(projects), id);
      InvalidatedSafe(services, old(projects), id);
      if !directoryRemoved {
        return;
      }
      services := services - {id};
      success := true;
    }

    method ReloadService(id: string, loaded: Option<Service>) returns (success: bool)
      modifies this`services
      ensures success <==> id in old(services) && loaded.Some?
      ensures services == if success then old(services)[id := loaded.value] else old(services)
      ensures State() == After(old(State()), Reload(id, loaded))
      ensures NoDangling(services, projects) <==> NoDangling(old(services), projects)
    {
      if id !in services || loaded.None? {
        return false;
      }
      services := services[id := loaded.value];
      success := true;
    }
  }

  /** The projects that name a service. */
  function Referring(projects: Projects, id: string): set<string> {
    set p | p in projects && projects[p].serviceId == id
  }

  ghost function Invalidated(projects: Projects, id: string): Projects {
    map p | p in projects :: if projects[p].serviceId == id then projects[p].(valid := false) else projects[p]
  }

  lemma NoneReferring(projects: Projects, id: string, associated: seq<string>)
    requires forall p :: p in associated <==> p in projects && projects[p].serviceId == id
    ensures associated == [] <==> Referring(projects, id) == {}
    ensures associated == [] ==> Invalidated(projects, id) == projects
  {
    if associated != [] {
      assert associated[0] in associated;
      assert associated[0] in Referring(projects, id);
    }
  }

  /** Once its projects are invalidated, a service may go. */
  lemma InvalidatedSafe(services: Services, projects: Projects, id: string)
    ensures NoDangling(services, projects) ==>
      NoDangling(services, Invalidated(projects, id)) && NoDangling(services - {id}, Invalidated(projects, id))
  {
  }

  /** Revalidation leaves no valid project without its service, whatever was there before. */
  lemma RevalidatedSafe(check: ConfigCheck, projects: Projects, services: Services)
    ensures NoDangling(services, Revalidated(check, projects, services))
  {
  }

  ghost function Revalidated(check: ConfigCheck, projects: Projects, services: Services): Projects {
    map id | id in projects :: Validated(check, projects[id], services)
  }
}
