/**
  service/GitService.java: repository discovery over a walked directory tree,
  the commit filter over JGit's log, and the statistics over a commit list.
  The walk, JGit's log and the clock are inputs; `getGitUser` is left out.
 */
module GitService {
  import opened Model
  import opened Tally
  import opened StableSort

  // ---------------------------------------------------------------------------
  // findGitRepositories

  /** Does some directory in the walk have no file name (the walk started at "/")? */
  predicate HasNamelessDirectory(es: seq<Entry>)
  {
    exists i :: 0 <= i < |es| && es[i].isDirectory && es[i].path == []
  }

  /** The stream `filter(Files::isDirectory).filter(name equals ".git")`, in walk order. */
  function GitDirPaths(es: seq<Entry>): (ps: seq<Path>)
    ensures |ps| <= |es|
    ensures forall p :: p in ps <==> Entry(p, true) in es && FileName(p) == Some(".git")
  {
    if es == [] then []
    else
      var ps := GitDirPaths(es[..|es| - 1]);
      var e := es[|es| - 1];
      assert es == es[..|es| - 1] + [e];
      if e.isDirectory && FileName(e.path) == Some(".git") then ps + [e.path] else ps
  }

  /** Filtering a walk made of two parts filters each part. */
  lemma {:induction false} GitDirPathsAppend(a: seq<Entry>, b: seq<Entry>)
    ensures GitDirPaths(a + b) == GitDirPaths(a) + GitDirPaths(b)
    decreases |b|
  {
    if b == [] {
      assert a + b == a;
    } else {
      var b' := b[..|b| - 1];
      assert (a + b)[..|a + b| - 1] == a + b';
      assert (a + b)[|a + b| - 1] == b[|b| - 1];
      GitDirPathsAppend(a, b');
    }
  }

  /**
    findGitRepositories(rootDir): fails when the root does not exist, otherwise
    one fresh handle per walked directory named `.git`, for its parent, with no
    commits. A directory without a file name ("/") makes `getFileName()` null.
   */
  method FindGitRepositories(rootDir: Path, root: Option<FsNode>) returns (r: Result<seq<GitRepository>>)
    ensures root.None? <==> r == Err(NoSuchFile)
    ensures root.Some? ==>
              var es := Walk(rootDir, root.value);
              (r.Ok? <==> !HasNamelessDirectory(es) && forall g :: g in GitDirPaths(es) ==> |g| >= 2)
    ensures r.Err? ==> r.failure in {NoSuchFile, NullPointer}
    ensures r.Ok? ==>
              var dirs := GitDirPaths(Walk(rootDir, root.value));
              var repos := r.value;
              |repos| == |dirs| &&
              (forall i :: 0 <= i < |repos| ==>
                 |dirs[i]| >= 2 &&
                 repos[i].path == Parent(dirs[i]) &&
                 Some(repos[i].name) == FileName(Parent(dirs[i])) &&
                 repos[i].commits == []) &&
              (forall i, j :: 0 <= i < j < |repos| ==> repos[i] != repos[j]) &&
              (forall i :: 0 <= i < |repos| ==> fresh(repos[i]))
  {
    if root.None? {
      return Err(NoSuchFile);
    }
    var entries := Walk(rootDir, root.value);
    if exists i | 0 <= i < |entries| :: entries[i].isDirectory && entries[i].path == [] {
      return Err(NullPointer);
    }
    r := RepositoriesFor(GitDirPaths(entries));
  }

  /**
    The loop of findGitRepositories over the `.git` directories: one new handle per `.git` directory,
    for its parent; a parent without a file name ("/") raises NullPointer.
   */
  method RepositoriesFor(gitDirs: seq<Path>) returns (r: Result<seq<GitRepository>>)
    requires forall g :: g in gitDirs ==> g != []
    ensures r.Ok? <==> forall g :: g in gitDirs ==> |g| >= 2
    ensures r.Err? ==> r.failure == NullPointer
    ensures r.Ok? ==>
              var repos := r.value;
              |repos| == |gitDirs| &&
              (forall i :: 0 <= i < |repos| ==>
                 |gitDirs[i]| >= 2 &&
                 repos[i].path == Parent(gitDirs[i]) &&
                 Some(repos[i].name) == FileName(Parent(gitDirs[i])) &&
                 repos[i].commits == []) &&
              (forall i, j :: 0 <= i < j < |repos| ==> repos[i] != repos[j]) &&
              (forall i :: 0 <= i < |repos| ==> fresh(repos[i]))
  {
    var repositories: seq<GitRepository> := [];
    for i := 0 to |gitDirs|
      invariant |repositories| == i
      invariant forall k :: 0 <= k < i ==> |gitDirs[k]| >= 2
      invariant forall k :: 0 <= k < i ==>
                  repositories[k].path == Parent(gitDirs[k]) &&
                  Some(repositories[k].name) == FileName(Parent(gitDirs[k])) &&
                  repositories[k].commits == []
      invariant forall k, l :: 0 <= k < l < i ==> repositories[k] != repositories[l]
      invariant forall k :: 0 <= k < i ==> fresh(repositories[k])
    {
      var gitDir := gitDirs[i];
      assert gitDir in gitDirs;
      var repoPath := Parent(gitDir);
      if repoPath == [] {
        return Err(NullPointer);
      }
      var repo := new GitRepository(repoPath[|repoPath| - 1], repoPath, []);
      repositories := repositories + [repo];
    }
    return Ok(repositories);
  }

  // ---------------------------------------------------------------------------
  // getCommits

  /** What opening the repository and running `git.log().all()` produced. */
  datatype LogRead =
    | Log(revCommits: seq<RevCommit>)
    | MissingGitDir       // `path/.git` does not exist
    | Unreadable          // JGit raised an IOException
    | LogCommandFailed    // JGit raised a GitAPIException

  /** The exception getCommits rethrows for a log it could not read. */
  function ReadFailure(log: LogRead): (f: Failure)
    requires !log.Log?
  {
    match log
    case MissingGitDir => NoSuchFile
    case Unreadable => IOError
    case LogCommandFailed => GitApiError
  }

  /** LocalDateTime.now().minusDays(days), converted back to an instant in the system zone. */
  function Since(clock: Clock, days: int): (since: Instant)
  {
    clock.now - days * MillisPerDay
  }

  /** The two `continue` guards: a commit is kept when it is not before `since`
      and, if the author filter is neither null nor empty, its author email equals it. */
  predicate Keeps(rc: RevCommit, since: Instant, authorEmail: Option<string>)
  {
    !(rc.authorIdent.when < since) &&
    !(HasText(authorEmail) && authorEmail.value != rc.authorIdent.emailAddress)
  }

  /** The GitCommit built from a kept RevCommit, tagged with the repository name. */
  function ToGitCommit(rc: RevCommit, clock: Clock, repoName: string): (c: GitCommit)
  {
    GitCommit(rc.name, rc.authorIdent.name, rc.authorIdent.emailAddress,
              ToLocalDateTime(clock, rc.authorIdent.when), rc.shortMessage, repoName)
  }

  /** The commits getCommits keeps from `log`, in log order. */
  function KeptCommits(log: seq<RevCommit>, since: Instant, authorEmail: Option<string>,
                       clock: Clock, repoName: string): (kept: seq<GitCommit>)
    ensures |kept| <= |log|
    ensures forall c :: c in kept ==>
              c.repository == repoName &&
              c.date >= since + clock.zoneOffset &&
              (HasText(authorEmail) ==> c.authorEmail == authorEmail.value)
    ensures forall rc :: rc in log && Keeps(rc, since, authorEmail) ==>
              ToGitCommit(rc, clock, repoName) in kept
  {
    if log == [] then []
    else
      var init, rc := log[..|log| - 1], log[|log| - 1];
      assert log == init + [rc];
      KeptCommits(init, since, authorEmail, clock, repoName) +
      (if Keeps(rc, since, authorEmail) then [ToGitCommit(rc, clock, repoName)] else [])
  }

  /** Every kept commit is the conversion of a log entry the filter admits. */
  lemma {:induction false} KeptCommitsSound(log: seq<RevCommit>, since: Instant, authorEmail: Option<string>,
                                            clock: Clock, repoName: string)
    ensures forall c :: c in KeptCommits(log, since, authorEmail, clock, repoName) ==>
              exists rc :: rc in log && Keeps(rc, since, authorEmail) && c == ToGitCommit(rc, clock, repoName)
  {
    if log != [] {
      var init := log[..|log| - 1];
      KeptCommitsSound(init, since, authorEmail, clock, repoName);
      assert forall rc :: rc in init ==> rc in log;
    }
  }

  /** The filter keeps relative order: filtering a log in two parts filters each part. */
  lemma {:induction false} KeptCommitsAppend(a: seq<RevCommit>, b: seq<RevCommit>, since: Instant,
                                             authorEmail: Option<string>, clock: Clock, repoName: string)
    ensures KeptCommits(a + b, since, authorEmail, clock, repoName) ==
            KeptCommits(a, since, authorEmail, clock, repoName) + KeptCommits(b, since, authorEmail, clock, repoName)
    decreases |b|
  {
    if b == [] {
      assert a + b == a;
    } else {
      var b' := b[..|b| - 1];
      assert (a + b)[..|a + b| - 1] == a + b';
      assert (a + b)[|a + b| - 1] == b[|b| - 1];
      KeptCommitsAppend(a, b', since, authorEmail, clock, repoName);
    }
  }

  /** With a null or empty author filter no commit is dropped for its author:
      the result is the same as with no filter at all. */
  lemma {:induction false} KeptCommitsIgnoreAuthor(log: seq<RevCommit>, since: Instant,
                                                   authorEmail: Option<string>, clock: Clock, repoName: string)
    requires !HasText(authorEmail)
    ensures KeptCommits(log, since, authorEmail, clock, repoName) == KeptCommits(log, since, None, clock, repoName)
  {
    if log != [] {
      KeptCommitsIgnoreAuthor(log[..|log| - 1], since, authorEmail, clock, repoName);
    }
  }

  /**
    getCommits(repository, days, authorEmail): reads the log, keeps the commits
    the filter admits in log order, and replaces the handle's commit list; the
    name and path stay as they were. A log that cannot be read raises, and then
    the handle is left untouched.
   */
  method GetCommits(repository: GitRepository, log: LogRead, clock: Clock, days: int,
                    authorEmail: Option<string>) returns (r: Result<GitRepository>)
    modifies repository
    ensures repository.name == old(repository.name) && repository.path == old(repository.path)
    ensures r.Ok? <==> log.Log?
    ensures r.Ok? ==>
              r.value == repository &&
              repository.commits ==
                KeptCommits(log.revCommits, Since(clock, days), authorEmail, clock, repository.name)
    ensures r.Err? ==> r.failure == ReadFailure(log) && repository.commits == old(repository.commits)
  {
    if !log.Log? {
      return Err(ReadFailure(log));
    }
    var revCommits := log.revCommits;
    var since := Since(clock, days);
    var commits: seq<GitCommit> := [];
    for i := 0 to |revCommits|
      invariant commits == KeptCommits(revCommits[..i], since, authorEmail, clock, repository.name)
    {
      var revCommit := revCommits[i];
      assert revCommits[..i + 1] == revCommits[..i] + [revCommit];
      var authorIdent := revCommit.authorIdent;
      if authorIdent.when < since {
        continue;
      }
      if HasText(authorEmail) && authorEmail.value != authorIdent.emailAddress {
        continue;
      }
      commits := commits + [ToGitCommit(revCommit, clock, repository.name)];
    }
    assert revCommits[..|revCommits|] == revCommits;
    repository.commits := commits;
    return Ok(repository);
  }

  // ---------------------------------------------------------------------------
  // calculateStats

  /** `commit.getDate().toLocalDate()` for each commit, in order. */
  function LocalDates(cs: seq<GitCommit>): (ds: seq<LocalDate>)
  {
    seq(|cs|, i requires 0 <= i < |cs| => ToLocalDate(cs[i].date))
  }

  /** Comparator.comparing(GitCommit::getDate). */
  predicate DateLe(a: GitCommit, b: GitCommit)
  {
    a.date <= b.date
  }

  lemma DateLeTotalPreorder()
    ensures TotalPreorder(DateLe)
  {
  }

  /**
    What calculateStats promises about `stats` for `commits`: the total, the
    per-day histogram, and the stable first and last commit by date.
   */
  ghost predicate StatsOf(commits: seq<GitCommit>, stats: ContributionStats)
  {
    stats.totalCommits == |commits| &&
    stats.commitsByDate == Histogram(LocalDates(commits)) &&
    (stats.firstCommit.None? <==> commits == []) &&
    (stats.lastCommit.None? <==> commits == []) &&
    (commits != [] ==>
       (exists i :: IsFirstLeast(commits, DateLe, i) && stats.firstCommit == Some(commits[i])) &&
       (exists j :: IsLastGreatest(commits, DateLe, j) && stats.lastCommit == Some(commits[j])))
  }

  /** The counting loop of calculateStats: each commit adds one to the entry of its local date. */
  method CountByDate(commits: seq<GitCommit>) returns (commitsByDate: map<LocalDate, nat>)
    ensures commitsByDate == Histogram(LocalDates(commits))
  {
    commitsByDate := map[];
    for i := 0 to |commits|
      invariant commitsByDate == Histogram(LocalDates(commits[..i]))
    {
      var date := ToLocalDate(commits[i].date);
      assert LocalDates(commits[..i + 1]) == LocalDates(commits[..i]) + [date];
      HistogramSnoc(LocalDates(commits[..i]), date);
      commitsByDate := commitsByDate[date := (if date in commitsByDate then commitsByDate[date] else 0) + 1];
    }
    assert commits[..|commits|] == commits;
  }

  /**
    calculateStats(commits): the total is the number of commits, the per-day
    map is the histogram of their local dates, and the first and last commits
    are the earliest and latest by date, ties going to the earliest least and
    the latest greatest in input order (the sort is stable). No commits: total
    0, an empty map, no first or last commit.
   */
  method CalculateStats(commits: seq<GitCommit>) returns (stats: ContributionStats)
    ensures stats.totalCommits == |commits|
    ensures stats.commitsByDate == Histogram(LocalDates(commits))
    ensures SumValues(stats.commitsByDate) == stats.totalCommits
    ensures commits == [] ==> stats.commitsByDate == map[]
    ensures stats.firstCommit.None? <==> commits == []
    ensures stats.lastCommit.None? <==> commits == []
    ensures commits != [] ==>
              exists i :: IsFirstLeast(commits, DateLe, i) && stats.firstCommit == Some(commits[i])
    ensures commits != [] ==>
              exists j :: IsLastGreatest(commits, DateLe, j) && stats.lastCommit == Some(commits[j])
    ensures StatsOf(commits, stats)
  {
    HistogramTotal(LocalDates(commits));
    if |commits| == 0 {
      assert Histogram(LocalDates(commits)) == map[];
      return ContributionStats(0, map[], None, None);
    }
    var commitsByDate := CountByDate(commits);
    var sorted := SortBy(commits, DateLe);
    DateLeTotalPreorder();
    var first := SortByHead(commits, DateLe);
    var last := SortByLast(commits, DateLe);
    stats := ContributionStats(|commits|, commitsByDate, Some(sorted[0]), Some(sorted[|sorted| - 1]));
  }
}
