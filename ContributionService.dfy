/**
  service/ContributionService.java: validates the request, resolves the user,
  gathers the repositories (one cloned remote, or every repository under the
  root directory), reads each one's commits and merges them into one set of
  statistics. What the service reads from outside is an `Environment` value.
 */
module ContributionService {
  import opened Model
  import opened Tally
  import opened GitService

  /** dto/ContributionRequest.java, with the remote URL the service reads. */
  datatype ContributionRequest = ContributionRequest(
    rootDirectory: Option<string>,
    remoteRepoUrl: Option<string>,
    days: int,
    userEmail: Option<string>)

  /** The resolved git identity (`user.name`, `user.email`). */
  datatype GitUser = GitUser(name: string, email: string)

  /** A repository handle as a value, as cloneAndAnalyzeRemoteRepository hands it back. */
  datatype RepoSnapshot = RepoSnapshot(name: string, path: Path, commits: seq<GitCommit>)

  /** Everything generateContributions reads from outside the model. */
  datatype Environment = Environment(
    gitUser: Result<GitUser>,       // getGitUser(), or the IOException it throws
    rootPath: Path,                 // Paths.get(request.getRootDirectory())
    rootTree: Option<FsNode>,       // what is on disk at that path, if anything
    remote: Result<RepoSnapshot>,   // cloneAndAnalyzeRemoteRepository(url, days, email)
    logs: Path -> LogRead,          // JGit's log of the repository at a path
    clock: Clock)

  /** dto/ContributionResponse.java; `overallStats` is null on the early return. */
  datatype ContributionResponse = ContributionResponse(
    userName: string,
    userEmail: string,
    totalRepositories: nat,
    totalCommits: nat,
    commitsByDate: map<LocalDate, nat>,
    repositories: seq<GitRepository>,
    overallStats: Option<ContributionStats>)

  /** The request is rejected unless a root directory or a remote URL is given. */
  predicate ValidRequest(request: ContributionRequest)
  {
    HasText(request.rootDirectory) || HasText(request.remoteRepoUrl)
  }

  /** The email commits are filtered by: the request's when it is non-null, else the configured one. */
  function FilterEmail(requested: Option<string>, configured: string): (email: string)
  {
    if requested.Some? then requested.value else configured
  }

  /** The handles' commit lists, in order. */
  ghost function CommitLists(repos: seq<GitRepository>): (lists: seq<seq<GitCommit>>)
    reads set k | 0 <= k < |repos| :: repos[k]
  {
    seq(|repos|, k requires 0 <= k < |repos| reads repos => repos[k].commits)
  }

  /** `allCommits.addAll(...)` for each list in turn. */
  function Concat(lists: seq<seq<GitCommit>>): (all: seq<GitCommit>)
  {
    if lists == [] then [] else Concat(lists[..|lists| - 1]) + lists[|lists| - 1]
  }

  /** The number of commits over all lists. */
  function TotalLength(lists: seq<seq<GitCommit>>): (n: nat)
  {
    if lists == [] then 0 else TotalLength(lists[..|lists| - 1]) + |lists[|lists| - 1]|
  }

  /** The number of commits over all lists that fall on day `d`. */
  function CountOnDay(lists: seq<seq<GitCommit>>, d: LocalDate): (n: nat)
  {
    if lists == [] then 0
    else CountOnDay(lists[..|lists| - 1], d) + Count(LocalDates(lists[|lists| - 1]), d)
  }

  /** The handles' paths, in order. */
  ghost function RepoPaths(repos: seq<GitRepository>): (paths: seq<Path>)
    reads set k | 0 <= k < |repos| :: repos[k]
  {
    seq(|repos|, k requires 0 <= k < |repos| reads repos => repos[k].path)
  }

  /**
    `k` is the first handle the merge loop has to read (it has no commits)
    whose log cannot be read: the loop stops there, with that log's exception.
   */
  ghost predicate FirstUnreadable(env: Environment, paths: seq<Path>, lists: seq<seq<GitCommit>>, k: int)
  {
    |paths| == |lists| && 0 <= k < |paths| && lists[k] == [] && !env.logs(paths[k]).Log? &&
    forall j :: 0 <= j < k && lists[j] == [] ==> env.logs(paths[j]).Log?
  }

  /** The merged list is as long as all lists together. */
  lemma {:induction false} ConcatLength(lists: seq<seq<GitCommit>>)
    ensures |Concat(lists)| == TotalLength(lists)
  {
    if lists != [] {
      ConcatLength(lists[..|lists| - 1]);
    }
  }

  lemma LocalDatesAppend(a: seq<GitCommit>, b: seq<GitCommit>)
    ensures LocalDates(a + b) == LocalDates(a) + LocalDates(b)
  {
  }

  /** A day's entry in the merged histogram is the sum of that day's count in every repository. */
  lemma {:induction false} ConcatCountOnDay(lists: seq<seq<GitCommit>>, d: LocalDate)
    ensures Count(LocalDates(Concat(lists)), d) == CountOnDay(lists, d)
  {
    if lists != [] {
      var init, last := lists[..|lists| - 1], lists[|lists| - 1];
      ConcatCountOnDay(init, d);
      LocalDatesAppend(Concat(init), last);
      CountAppend(LocalDates(Concat(init)), LocalDates(last), d);
    }
  }

  /** A handle's commit list after the merge loop: kept as it is when it already
      has commits, otherwise replaced by what getCommits keeps from its log. */
  ghost function ReadCommits(env: Environment, days: int, userEmail: string,
                             name: string, path: Path, commits: seq<GitCommit>): (read: seq<GitCommit>)
  {
    if commits != [] then commits
    else if env.logs(path).Log? then
      KeptCommits(env.logs(path).revCommits, Since(env.clock, days), Some(userEmail), env.clock, name)
    else []
  }

  /** The handles' names, in order. */
  ghost function RepoNames(repos: seq<GitRepository>): (names: seq<string>)
    reads set k | 0 <= k < |repos| :: repos[k]
  {
    seq(|repos|, k requires 0 <= k < |repos| reads repos => repos[k].name)
  }

  /** The commit list each handle ends up with when the merge loop reads it. */
  ghost function ReadLists(env: Environment, days: int, userEmail: string,
                           names: seq<string>, paths: seq<Path>, lists: seq<seq<GitCommit>>): (read: seq<seq<GitCommit>>)
    requires |names| == |paths| == |lists|
  {
    seq(|lists|, k requires 0 <= k < |lists| => ReadCommits(env, days, userEmail, names[k], paths[k], lists[k]))
  }

  /**
    What the merge loop of generateContributions yields after its first `n`
    turns over handles with these names, paths and commit lists: the merged
    list so far, or the exception of the first handle it had to read and could not.
   */
  ghost function MergeOutcome(env: Environment, days: int, userEmail: string,
                              names: seq<string>, paths: seq<Path>, lists: seq<seq<GitCommit>>, n: nat)
    : (r: Result<seq<GitCommit>>)
    requires |names| == |paths| == |lists| && n <= |lists|
  {
    if n == 0 then Ok([])
    else
      var prev := MergeOutcome(env, days, userEmail, names, paths, lists, n - 1);
      if prev.Err? then prev
      else if lists[n - 1] == [] && !env.logs(paths[n - 1]).Log? then Err(ReadFailure(env.logs(paths[n - 1])))
      else Ok(prev.value + ReadCommits(env, days, userEmail, names[n - 1], paths[n - 1], lists[n - 1]))
  }

  /**
    The first `n` turns succeed exactly when each of those handles without
    commits has a readable log, and then concatenate what each handle ends up with.
   */
  lemma {:induction false} MergeOutcomeOk(env: Environment, days: int, userEmail: string,
                                          names: seq<string>, paths: seq<Path>, lists: seq<seq<GitCommit>>, n: nat)
    requires |names| == |paths| == |lists| && n <= |lists|
    ensures var r := MergeOutcome(env, days, userEmail, names, paths, lists, n);
            (r.Ok? <==> forall k :: 0 <= k < n && lists[k] == [] ==> env.logs(paths[k]).Log?) &&
            (r.Ok? ==> r.value == Concat(ReadLists(env, days, userEmail, names, paths, lists)[..n]))
  {
    if n > 0 {
      MergeOutcomeOk(env, days, userEmail, names, paths, lists, n - 1);
      var read := ReadLists(env, days, userEmail, names, paths, lists);
      assert read[..n][..n - 1] == read[..n - 1];
    }
  }

  /** A failed merge fails with the exception of the first handle without commits whose log cannot be read. */
  lemma {:induction false} MergeOutcomeErr(env: Environment, days: int, userEmail: string,
                                           names: seq<string>, paths: seq<Path>, lists: seq<seq<GitCommit>>, n: nat)
    requires |names| == |paths| == |lists| && n <= |lists|
    ensures var r := MergeOutcome(env, days, userEmail, names, paths, lists, n);
            r.Err? ==> exists k :: k < n && FirstUnreadable(env, paths, lists, k) &&
                                   r.failure == ReadFailure(env.logs(paths[k]))
  {
    var r := MergeOutcome(env, days, userEmail, names, paths, lists, n);
    if n > 0 && r.Err? {
      var prev := MergeOutcome(env, days, userEmail, names, paths, lists, n - 1);
      if prev.Err? {
        MergeOutcomeErr(env, days, userEmail, names, paths, lists, n - 1);
      } else {
        MergeOutcomeOk(env, days, userEmail, names, paths, lists, n - 1);
        assert FirstUnreadable(env, paths, lists, n - 1);
      }
    }
  }

  /** Once the merge has failed after `m` turns, the later turns do not change the outcome. */
  lemma {:induction false} MergeOutcomeStops(env: Environment, days: int, userEmail: string,
                                             names: seq<string>, paths: seq<Path>, lists: seq<seq<GitCommit>>,
                                             m: nat, n: nat)
    requires |names| == |paths| == |lists| && m <= n <= |lists|
    requires MergeOutcome(env, days, userEmail, names, paths, lists, m).Err?
    ensures MergeOutcome(env, days, userEmail, names, paths, lists, n) ==
            MergeOutcome(env, days, userEmail, names, paths, lists, m)
    decreases n
  {
    if m < n {
      MergeOutcomeStops(env, days, userEmail, names, paths, lists, m, n - 1);
    }
  }

  /**
    One turn of the merge loop: a handle without commits is read by
    getCommits, whose exception ends the loop; a handle with commits keeps them.
   */
  method ReadRepository(repository: GitRepository, env: Environment, days: int, userEmail: string)
    returns (r: Result<seq<GitCommit>>)
    modifies repository
    ensures repository.name == old(repository.name) && repository.path == old(repository.path)
    ensures r.Ok? <==> old(repository.commits) != [] || env.logs(old(repository.path)).Log?
    ensures r.Ok? ==>
              r.value == repository.commits ==
              ReadCommits(env, days, userEmail, repository.name, repository.path, old(repository.commits))
    ensures r.Err? ==> r.failure == ReadFailure(env.logs(old(repository.path)))
  {
    if repository.commits == [] {
      var read := GetCommits(repository, env.logs(repository.path), env.clock, days, Some(userEmail));
      if read.Err? {
        return Err(read.failure);
      }
    }
    return Ok(repository.commits);
  }

  /**
    The handles after `i` turns of the merge loop over the snapshot `names`,
    `paths`, `initial`: names and paths unchanged, the first `i` handles
    hold what the loop read for them, the others their initial lists.
   */
  ghost predicate HandlesAfter(repositories: seq<GitRepository>, env: Environment, days: int, userEmail: string,
                               names: seq<string>, paths: seq<Path>, initial: seq<seq<GitCommit>>, i: nat)
    reads set k | 0 <= k < |repositories| :: repositories[k]
  {
    |names| == |paths| == |initial| == |repositories| && i <= |repositories| &&
    (forall k :: 0 <= k < |repositories| ==> repositories[k].name == names[k] && repositories[k].path == paths[k]) &&
    (forall k :: 0 <= k < i ==>
       repositories[k].commits == ReadCommits(env, days, userEmail, names[k], paths[k], initial[k])) &&
    (forall k :: i <= k < |repositories| ==> repositories[k].commits == initial[k])
  }

  /**
    Turn `i` of the merge loop: handle `i` is read as `ReadRepository` says,
    and no other handle changes.
   */
  method ReadTurn(repositories: seq<GitRepository>, i: nat, env: Environment, days: int, userEmail: string,
                  ghost names: seq<string>, ghost paths: seq<Path>, ghost initial: seq<seq<GitCommit>>)
    returns (read: Result<seq<GitCommit>>)
    requires forall i, j :: 0 <= i < j < |repositories| ==> repositories[i] != repositories[j]
    requires i < |repositories| && HandlesAfter(repositories, env, days, userEmail, names, paths, initial, i)
    modifies repositories[i]
    ensures forall k :: 0 <= k < |repositories| ==>
              repositories[k].name == names[k] && repositories[k].path == paths[k]
    ensures read.Ok? <==> initial[i] != [] || env.logs(paths[i]).Log?
    ensures read.Ok? ==>
              read.value == ReadCommits(env, days, userEmail, names[i], paths[i], initial[i]) &&
              HandlesAfter(repositories, env, days, userEmail, names, paths, initial, i + 1)
    ensures read.Err? ==> read.failure == ReadFailure(env.logs(paths[i]))
  {
    read := ReadRepository(repositories[i], env, days, userEmail);
  }

  /**
    The merge loop of generateContributions: every handle without commits is
    read by getCommits, and the commit lists are appended in order. The first
    unreadable repository aborts the loop with getCommits' exception.
   */
  method CollectCommits(repositories: seq<GitRepository>, env: Environment, days: int, userEmail: string,
                        ghost names: seq<string>, ghost paths: seq<Path>, ghost initial: seq<seq<GitCommit>>)
    returns (r: Result<seq<GitCommit>>)
    requires forall i, j :: 0 <= i < j < |repositories| ==> repositories[i] != repositories[j]
    requires HandlesAfter(repositories, env, days, userEmail, names, paths, initial, 0)
    modifies set k | 0 <= k < |repositories| :: repositories[k]
    ensures forall k :: 0 <= k < |repositories| ==>
              repositories[k].name == names[k] && repositories[k].path == paths[k]
    ensures r == MergeOutcome(env, days, userEmail, names, paths, initial, |repositories|)
    ensures r.Ok? ==> HandlesAfter(repositories, env, days, userEmail, names, paths, initial, |repositories|)
  {
    var allCommits: seq<GitCommit> := [];
    for i := 0 to |repositories|
      invariant Ok(allCommits) == MergeOutcome(env, days, userEmail, names, paths, initial, i)
      invariant HandlesAfter(repositories, env, days, userEmail, names, paths, initial, i)
    {
      var read := ReadTurn(repositories, i, env, days, userEmail, names, paths, initial);
      if read.Err? {
        MergeOutcomeStops(env, days, userEmail, names, paths, initial, i + 1, |repositories|);
        return Err(read.failure);
      }
      allCommits := allCommits + read.value;
    }
    return Ok(allCommits);
  }

  /** The walk of the root directory finds repositories without a null file name. */
  ghost predicate DiscoveryOk(env: Environment)
    requires env.rootTree.Some?
  {
    var es := Walk(env.rootPath, env.rootTree.value);
    !HasNamelessDirectory(es) && forall g :: g in GitDirPaths(es) ==> |g| >= 2
  }

  /** The repository directories under the root, in walk order. */
  ghost function LocalRepoPaths(env: Environment): (paths: seq<Path>)
    requires env.rootTree.Some? && DiscoveryOk(env)
  {
    var dirs := GitDirPaths(Walk(env.rootPath, env.rootTree.value));
    seq(|dirs|, k requires 0 <= k < |dirs| => Parent(dirs[k]))
  }

  /**
    The repositories generateContributions analyses: the cloned remote
    repository when a remote URL is given, otherwise every repository under
    the root directory, which must exist.
   */
  method GatherRepositories(request: ContributionRequest, env: Environment) returns (r: Result<seq<GitRepository>>)
    ensures HasText(request.remoteRepoUrl) ==>
              (r.Ok? <==> env.remote.Ok?) &&
              (r.Err? ==> r == Err(env.remote.failure)) &&
              (r.Ok? ==> var snap := env.remote.value;
                         |r.value| == 1 && fresh(r.value[0]) && r.value[0].name == snap.name &&
                         r.value[0].path == snap.path && r.value[0].commits == snap.commits)
    ensures !HasText(request.remoteRepoUrl) && env.rootTree.None? ==> r == Err(NoSuchFile)
    ensures !HasText(request.remoteRepoUrl) && env.rootTree.Some? && !DiscoveryOk(env) ==> r == Err(NullPointer)
    ensures !HasText(request.remoteRepoUrl) && env.rootTree.Some? ==>
              (r.Ok? <==> DiscoveryOk(env)) &&
              (r.Ok? ==> var paths := LocalRepoPaths(env);
                         |r.value| == |paths| &&
                         (forall k :: 0 <= k < |paths| ==>
                            r.value[k].path == paths[k] && Some(r.value[k].name) == FileName(paths[k]) &&
                            r.value[k].commits == []) &&
                         (forall i, j :: 0 <= i < j < |r.value| ==> r.value[i] != r.value[j]) &&
                         (forall k :: 0 <= k < |paths| ==> fresh(r.value[k])))
  {
    if HasText(request.remoteRepoUrl) {
      if env.remote.Err? {
        return Err(env.remote.failure);
      }
      var snap := env.remote.value;
      var remoteRepo := new GitRepository(snap.name, snap.path, snap.commits);
      return Ok([remoteRepo]);
    }
    if env.rootTree.None? {
      return Err(NoSuchFile);
    }
    r := FindGitRepositories(env.rootPath, env.rootTree);
  }

  /**
    The totals of a response, as generateContributions computes them from the
    handles it returns: the repository count, the number of commits and the
    per-day histogram of the merged list, and its statistics (none when there
    are no repositories).
   */
  ghost predicate ResponseTotals(resp: ContributionResponse)
    reads set k | 0 <= k < |resp.repositories| :: resp.repositories[k]
  {
    var all := Concat(CommitLists(resp.repositories));
    resp.totalRepositories == |resp.repositories| &&
    resp.totalCommits == |all| == TotalLength(CommitLists(resp.repositories)) &&
    resp.commitsByDate == Histogram(LocalDates(all)) &&
    (resp.repositories == [] ==> resp.overallStats == None) &&
    (resp.repositories != [] ==> resp.overallStats.Some? && StatsOf(all, resp.overallStats.value))
  }

  /** The handles' commit lists are the given snapshot, read, exactly when each handle holds its read list. */
  lemma HandleLists(repositories: seq<GitRepository>, env: Environment, days: int, userEmail: string,
                    names: seq<string>, paths: seq<Path>, lists: seq<seq<GitCommit>>)
    requires |names| == |paths| == |lists| == |repositories|
    ensures CommitLists(repositories) == ReadLists(env, days, userEmail, names, paths, lists) <==>
            forall k :: 0 <= k < |repositories| ==>
              repositories[k].commits == ReadCommits(env, days, userEmail, names[k], paths[k], lists[k])
  {
    var read := ReadLists(env, days, userEmail, names, paths, lists);
    if forall k :: 0 <= k < |repositories| ==> repositories[k].commits == read[k] {
      assert CommitLists(repositories) == read;
    } else {
      var k :| 0 <= k < |repositories| && repositories[k].commits != read[k];
      assert CommitLists(repositories)[k] == repositories[k].commits;
    }
  }

  /**
    A response built from the statistics of the merged list of a non-empty
    repository list has the totals generateContributions promises.
   */
  lemma SummaryTotals(userName: string, userEmail: string, repositories: seq<GitRepository>,
                      all: seq<GitCommit>, stats: ContributionStats)
    requires repositories != [] && all == Concat(CommitLists(repositories))
    requires StatsOf(all, stats)
    ensures ResponseTotals(ContributionResponse(userName, userEmail, |repositories|, stats.totalCommits,
                                                stats.commitsByDate, repositories, Some(stats)))
  {
    ConcatLength(CommitLists(repositories));
  }

  /**
    The tail of generateContributions once the repositories are known: the
    early empty response, or the merged commit list and its statistics.
   */
  method Summarize(userName: string, userEmail: string, repositories: seq<GitRepository>,
                   env: Environment, days: int,
                   ghost names: seq<string>, ghost paths: seq<Path>, ghost lists: seq<seq<GitCommit>>)
    returns (r: Result<ContributionResponse>)
    requires forall i, j :: 0 <= i < j < |repositories| ==> repositories[i] != repositories[j]
    requires HandlesAfter(repositories, env, days, userEmail, names, paths, lists, 0)
    modifies set k | 0 <= k < |repositories| :: repositories[k]
    ensures r.Ok? <==> forall k :: 0 <= k < |repositories| && lists[k] == [] ==> env.logs(paths[k]).Log?
    ensures r.Ok? ==>
              r.value.userName == userName && r.value.userEmail == userEmail &&
              r.value.repositories == repositories &&
              HandlesAfter(repositories, env, days, userEmail, names, paths, lists, |repositories|)
    ensures r.Ok? && repositories == [] ==>
              r.value.totalRepositories == 0 && r.value.totalCommits == 0 &&
              r.value.commitsByDate == map[] && r.value.overallStats == None
    ensures r.Ok? ==> ResponseTotals(r.value)
    ensures r.Err? ==>
              exists k :: FirstUnreadable(env, paths, lists, k) && r.failure == ReadFailure(env.logs(paths[k]))
  {
    if repositories == [] {
      assert CommitLists(repositories) == [] && Concat([]) == [];
      assert Histogram(LocalDates([])) == map[];
      return Ok(ContributionResponse(userName, userEmail, 0, 0, map[], [], None));
    }
    MergeOutcomeOk(env, days, userEmail, names, paths, lists, |lists|);
    MergeOutcomeErr(env, days, userEmail, names, paths, lists, |lists|);
    var collected := CollectCommits(repositories, env, days, userEmail, names, paths, lists);
    if collected.Err? {
      return Err(collected.failure);
    }
    var allCommits := collected.value;
    HandleLists(repositories, env, days, userEmail, names, paths, lists);
    ghost var read := ReadLists(env, days, userEmail, names, paths, lists);
    assert read[..|lists|] == read;
    var stats := CalculateStats(allCommits);
    SummaryTotals(userName, userEmail, repositories, allCommits, stats);
    return Ok(ContributionResponse(userName, userEmail, |repositories|, stats.totalCommits,
                                   stats.commitsByDate, repositories, Some(stats)));
  }

  /**
    generateContributions for a request with a remote URL: the cloned
    repository is the only one, read unless the clone already carries commits.
   */
  method AnalyzeRemote(request: ContributionRequest, env: Environment, userName: string, userEmail: string)
    returns (r: Result<ContributionResponse>)
    requires HasText(request.remoteRepoUrl)
    ensures env.remote.Err? ==> r == Err(env.remote.failure)
    ensures env.remote.Ok? ==>
              var snap := env.remote.value;
              (r.Ok? <==> (snap.commits == [] ==> env.logs(snap.path).Log?)) &&
              (r.Err? ==> snap.commits == [] && !env.logs(snap.path).Log? &&
                          r.failure == ReadFailure(env.logs(snap.path)))
    ensures r.Ok? ==>
              env.remote.Ok? &&
              var snap, repos := env.remote.value, r.value.repositories;
              r.value.userName == userName && r.value.userEmail == userEmail &&
              |repos| == 1 && repos[0].name == snap.name && repos[0].path == snap.path &&
              repos[0].commits == ReadCommits(env, request.days, userEmail, snap.name, snap.path, snap.commits) &&
              ResponseTotals(r.value)
  {
    var gathered := GatherRepositories(request, env);
    if gathered.Err? {
      return Err(gathered.failure);
    }
    var repositories := gathered.value;
    ghost var snap := env.remote.value;
    ghost var names, paths, lists := [snap.name], [snap.path], [snap.commits];
    r := Summarize(userName, userEmail, repositories, env, request.days, names, paths, lists);
    assert r.Ok? <==> (snap.commits == [] ==> env.logs(snap.path).Log?) by {
      if !(snap.commits == [] ==> env.logs(snap.path).Log?) {
        assert lists[0] == [] && !env.logs(paths[0]).Log?;
      }
    }
    if r.Err? {
      ghost var k :| FirstUnreadable(env, paths, lists, k) && r.failure == ReadFailure(env.logs(paths[k]));
      assert k == 0;
    }
  }

  /**
    Summarize for handles that carry no commits yet, as discovery returns
    them: every handle is read, and the first unreadable log ends the call.
   */
  method SummarizeDiscovered(userName: string, userEmail: string, repositories: seq<GitRepository>,
                             env: Environment, days: int, ghost names: seq<string>, ghost paths: seq<Path>)
    returns (r: Result<ContributionResponse>)
    requires forall i, j :: 0 <= i < j < |repositories| ==> repositories[i] != repositories[j]
    requires |names| == |paths| == |repositories|
    requires forall k :: 0 <= k < |repositories| ==>
               repositories[k].name == names[k] && repositories[k].path == paths[k] && repositories[k].commits == []
    modifies set k | 0 <= k < |repositories| :: repositories[k]
    ensures r.Ok? <==> forall k :: 0 <= k < |paths| ==> env.logs(paths[k]).Log?
    ensures r.Err? ==> exists k :: 0 <= k < |paths| && !env.logs(paths[k]).Log? &&
                                   (forall j :: 0 <= j < k ==> env.logs(paths[j]).Log?) &&
                                   r.failure == ReadFailure(env.logs(paths[k]))
    ensures r.Ok? ==>
              var repos := r.value.repositories;
              r.value.userName == userName && r.value.userEmail == userEmail &&
              |repos| == |paths| &&
              (forall k :: 0 <= k < |repos| ==>
                 repos[k].name == names[k] && repos[k].path == paths[k] &&
                 repos[k].commits == ReadCommits(env, days, userEmail, names[k], paths[k], [])) &&
              ResponseTotals(r.value)
  {
    ghost var lists: seq<seq<GitCommit>> := seq(|repositories|, k => []);
    r := Summarize(userName, userEmail, repositories, env, days, names, paths, lists);
    if r.Err? {
      ghost var k :| FirstUnreadable(env, paths, lists, k) && r.failure == ReadFailure(env.logs(paths[k]));
    }
  }

  /**
    generateContributions for a request without a remote URL: every
    repository under the root directory, read in walk order.
   */
  method AnalyzeLocal(request: ContributionRequest, env: Environment, userName: string, userEmail: string)
    returns (r: Result<ContributionResponse>)
    requires !HasText(request.remoteRepoUrl)
    ensures env.rootTree.None? ==> r == Err(NoSuchFile)
    ensures env.rootTree.Some? && !DiscoveryOk(env) ==> r == Err(NullPointer)
    ensures env.rootTree.Some? && DiscoveryOk(env) ==>
              var paths := LocalRepoPaths(env);
              (r.Ok? <==> forall k :: 0 <= k < |paths| ==> env.logs(paths[k]).Log?) &&
              (r.Err? ==> exists k :: 0 <= k < |paths| && !env.logs(paths[k]).Log? &&
                                      (forall j :: 0 <= j < k ==> env.logs(paths[j]).Log?) &&
                                      r.failure == ReadFailure(env.logs(paths[k])))
    ensures r.Ok? ==>
              env.rootTree.Some? && DiscoveryOk(env) &&
              var paths, repos := LocalRepoPaths(env), r.value.repositories;
              r.value.userName == userName && r.value.userEmail == userEmail &&
              |repos| == |paths| &&
              (forall k :: 0 <= k < |repos| ==>
                 repos[k].path == paths[k] && Some(repos[k].name) == FileName(paths[k]) &&
                 repos[k].commits == ReadCommits(env, request.days, userEmail, repos[k].name, paths[k], [])) &&
              ResponseTotals(r.value)
  {
    var gathered := GatherRepositories(request, env);
    if gathered.Err? {
      return Err(gathered.failure);
    }
    var repositories := gathered.value;
    ghost var names := RepoNames(repositories);
    ghost var paths := LocalRepoPaths(env);
    assert forall k :: 0 <= k < |names| ==> names[k] == repositories[k].name;
    r := SummarizeDiscovered(userName, userEmail, repositories, env, request.days, names, paths);
  }

  /**
    generateContributions(request). Errors: an invalid request, a failing
    identity lookup, a failing clone, a missing root, a directory without a
    file name, an unreadable repository. Otherwise the response carries the
    resolved name, the filter email, the repositories with their commits
    attached, and totals computed from the in-order concatenation of their
    commit lists.
   */
  method GenerateContributions(request: ContributionRequest, env: Environment)
    returns (r: Result<ContributionResponse>)
    // validation comes first
    ensures !ValidRequest(request) ==> r == Err(IllegalArgument)
    ensures ValidRequest(request) && env.gitUser.Err? ==> r == Err(env.gitUser.failure)
    // identity: explicit email overrides, the name is always the configured one
    ensures r.Ok? ==>
              ValidRequest(request) && env.gitUser.Ok? &&
              r.value.userName == env.gitUser.value.name &&
              r.value.userEmail == FilterEmail(request.userEmail, env.gitUser.value.email)
    // a remote URL takes precedence: exactly one repository
    ensures ValidRequest(request) && env.gitUser.Ok? && HasText(request.remoteRepoUrl) ==>
              (r.Ok? <==> env.remote.Ok? &&
                          (env.remote.value.commits == [] ==> env.logs(env.remote.value.path).Log?))
    ensures ValidRequest(request) && env.gitUser.Ok? && HasText(request.remoteRepoUrl) && env.remote.Err? ==>
              r == Err(env.remote.failure)
    ensures ValidRequest(request) && env.gitUser.Ok? && HasText(request.remoteRepoUrl) && env.remote.Ok? && r.Err? ==>
              env.remote.value.commits == [] && !env.logs(env.remote.value.path).Log? &&
              r.failure == ReadFailure(env.logs(env.remote.value.path))
    ensures r.Ok? && HasText(request.remoteRepoUrl) ==>
              var snap, repos := env.remote.value, r.value.repositories;
              |repos| == 1 && repos[0].name == snap.name && repos[0].path == snap.path &&
              repos[0].commits == ReadCommits(env, request.days, r.value.userEmail, snap.name, snap.path, snap.commits)
    // otherwise the root directory is searched
    ensures ValidRequest(request) && env.gitUser.Ok? && !HasText(request.remoteRepoUrl) && env.rootTree.None? ==>
              r == Err(NoSuchFile)
    ensures ValidRequest(request) && env.gitUser.Ok? && !HasText(request.remoteRepoUrl) && env.rootTree.Some? ==>
              (r.Ok? <==> DiscoveryOk(env) &&
                          forall k :: 0 <= k < |LocalRepoPaths(env)| ==> env.logs(LocalRepoPaths(env)[k]).Log?)
    ensures ValidRequest(request) && env.gitUser.Ok? && !HasText(request.remoteRepoUrl) && env.rootTree.Some? &&
            !DiscoveryOk(env) ==>
              r == Err(NullPointer)
    // the first repository whose log cannot be read ends the call with that log's exception
    ensures ValidRequest(request) && env.gitUser.Ok? && !HasText(request.remoteRepoUrl) && env.rootTree.Some? &&
            DiscoveryOk(env) && r.Err? ==>
              var paths := LocalRepoPaths(env);
              exists k :: 0 <= k < |paths| && !env.logs(paths[k]).Log? &&
                          (forall j :: 0 <= j < k ==> env.logs(paths[j]).Log?) &&
                          r.failure == ReadFailure(env.logs(paths[k]))
    ensures r.Ok? && !HasText(request.remoteRepoUrl) ==>
              var paths, repos := LocalRepoPaths(env), r.value.repositories;
              |repos| == |paths| &&
              forall k :: 0 <= k < |repos| ==>
                repos[k].path == paths[k] && Some(repos[k].name) == FileName(paths[k]) &&
                repos[k].commits == ReadCommits(env, request.days, r.value.userEmail, repos[k].name, paths[k], [])
    // the totals come from the statistics of the merged commit list
    ensures r.Ok? ==> ResponseTotals(r.value)
  {
    if !HasText(request.rootDirectory) && !HasText(request.remoteRepoUrl) {
      return Err(IllegalArgument);
    }
    if env.gitUser.Err? {
      return Err(env.gitUser.failure);
    }
    var user := env.gitUser.value;
    var userName := user.name;
    var userEmail := FilterEmail(request.userEmail, user.email);
    if HasText(request.remoteRepoUrl) {
      r := AnalyzeRemote(request, env, userName, userEmail);
    } else {
      r := AnalyzeLocal(request, env, userName, userEmail);
    }
  }
}
