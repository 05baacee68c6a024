/** Which execution runtime applies to a repository, one at a time and for many at once. */
module ProjectRuntime {
  import opened Options

  const LOCAL_HOST := "local"

  datatype Repo = Repo(id: string, hostId: string)

  datatype Project = Project(id: string, sourceRepoIds: seq<string>)

  /** What the store offers; an older store can neither list projects nor settings. */
  datatype Store = Store(canResolve: bool, projects: seq<Project>)

  /** How a project's runtime follows from its preference and the settings; left open. */
  type Resolver<R> = Project -> R

  /** projects.find: the first project that lists the repository. */
  function FirstListing(projects: seq<Project>, repoId: string): (r: Option<Project>)
    ensures r.Some? ==> r.value in projects && repoId in r.value.sourceRepoIds
    ensures r.None? ==> forall p :: p in projects ==> repoId !in p.sourceRepoIds
  {
    if projects == [] then None
    else if repoId in projects[0].sourceRepoIds then Some(projects[0])
    else FirstListing(projects[1..], repoId)
  }

  function ResolveForRepo<R>(store: Store, repo: Repo, resolve: Resolver<R>): Option<R> {
    if repo.hostId != LOCAL_HOST || !store.canResolve then None
    else
      var project := FirstListing(store.projects, repo.id);
      if project.None? then None else Some(resolve(project.value))
  }

  function Lookup<R>(m: map<string, R>, key: string): Option<R> {
    if key in m then Some(m[key]) else None
  }

  ghost predicate IsRequested(repos: seq<Repo>, repoId: string) {
    exists repo :: repo in repos && repo.hostId == LOCAL_HOST && repo.id == repoId
  }

  /** The entry of the batch for a repository identifier. */
  ghost function Entry<R>(projects: seq<Project>, requested: set<string>, repoId: string,
                          resolve: Resolver<R>): Option<R> {
    var project := FirstListing(projects, repoId);
    if repoId in requested && project.Some? then Some(resolve(project.value)) else None
  }

  lemma {:induction false} FirstListingAppend(projects: seq<Project>, project: Project, repoId: string)
    ensures FirstListing(projects + [project], repoId) ==
      if FirstListing(projects, repoId).Some? then FirstListing(projects, repoId)
      else if repoId in project.sourceRepoIds then Some(project) else None
  {
    if projects != [] {
      assert (projects + [project])[0] == projects[0] && (projects + [project])[1..] == projects[1..] + [project];
      FirstListingAppend(projects[1..], project, repoId);
    }
  }

  /** What the batch promises repository by repository: a local one gets exactly what it gets on its own,
      and there is nothing else. */
  ghost predicate IsBatch<R>(store: Store, repos: seq<Repo>, resolve: Resolver<R>, m: map<string, R>) {
    && (forall repo :: repo in repos && repo.hostId == LOCAL_HOST ==>
          Lookup(m, repo.id) == ResolveForRepo(store, repo, resolve))
    && (forall id :: id in m ==> IsRequested(repos, id))
  }

  method ResolveForRepos<R>(store: Store, repos: seq<Repo>, resolve: Resolver<R>)
    returns (runtimeByRepoId: map<string, R>)
    ensures IsBatch(store, repos, resolve, runtimeByRepoId)
  {
    runtimeByRepoId := map[];
    if !store.canResolve {
      return;
    }
    var requested: set<string> := {};
    for i := 0 to |repos|
      invariant forall id :: id in requested <==> IsRequested(repos[..i], id)
    {
      assert repos[..i + 1] == repos[..i] + [repos[i]];
      if repos[i].hostId == LOCAL_HOST {
        requested := requested + {repos[i].id};
      }
    }
    assert repos[..|repos|] == repos;
    assert forall repo :: repo in repos && repo.hostId == LOCAL_HOST ==> repo.id in requested;
    if requested == {} {
      return;
    }
    for k := 0 to |store.projects|
      invariant forall id :: Lookup(runtimeByRepoId, id) == Entry(store.projects[..k], requested, id, resolve)
    {
      var project := store.projects[k];
      assert store.projects[..k + 1] == store.projects[..k] + [project];
      var matching := Matching(project.sourceRepoIds, requested, runtimeByRepoId);
      ghost var before := runtimeByRepoId;
      if matching != [] {
        var runtime := resolve(project);
        for j := 0 to |matching|
          invariant forall id ::
            Lookup(runtimeByRepoId, id) == if id in matching[..j] then Some(runtime) else Lookup(before, id)
        {
          assert matching[..j + 1] == matching[..j] + [matching[j]];
          runtimeByRepoId := runtimeByRepoId[matching[j] := runtime];
        }
        assert matching[..|matching|] == matching;
      }
      forall id ensures Lookup(runtimeByRepoId, id) == Entry(store.projects[..k + 1], requested, id, resolve) {
        FirstListingAppend(store.projects[..k], project, id);
        assert Lookup(before, id) == Entry(store.projects[..k], requested, id, resolve);
      }
    }
    assert store.projects[..|store.projects|] == store.projects;
    forall id | id in runtimeByRepoId ensures IsRequested(repos, id) {
      assert Lookup(runtimeByRepoId, id) == Entry(store.projects, requested, id, resolve);
    }
  }

  function Matching<R>(repoIds: seq<string>, requested: set<string>, known: map<string, R>): (r: seq<string>)
    ensures forall id :: id in r <==> id in repoIds && id in requested && id !in known
  {
    if repoIds == [] then []
    else
      (if repoIds[0] in requested && repoIds[0] !in known then [repoIds[0]] else [])
      + Matching(repoIds[1..], requested, known)
  }

  /** The batch agrees with the single lookup on a repository unless it is remote and shares its identifier
      with a local one that a project lists; with unique identifiers it always agrees. */
  lemma BatchAgreesIff<R>(store: Store, repos: seq<Repo>, resolve: Resolver<R>, m: map<string, R>, repo: Repo)
    requires IsBatch(store, repos, resolve, m) && repo in repos
    ensures Lookup(m, repo.id) == ResolveForRepo(store, repo, resolve)
       <==> !(repo.hostId != "local" && IsRequested(repos, repo.id)
              && store.canResolve && FirstListing(store.projects, repo.id).Some?)
    ensures (forall other :: other in repos && other.id == repo.id ==> other == repo) ==>
      Lookup(m, repo.id) == ResolveForRepo(store, repo, resolve)
  {
    if repo.hostId != LOCAL_HOST && IsRequested(repos, repo.id) {
      var local :| local in repos && local.hostId == LOCAL_HOST && local.id == repo.id;
      assert Lookup(m, local.id) == ResolveForRepo(store, local, resolve);
    }
  }
}
