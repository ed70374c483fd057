/**
  Values shared by the Java service and the Python script: the commit and
  repository records of `model/`, the time representation, the failures the
  services raise, and the directory tree that `Files.walk` and `os.walk` read.
 */
module Model {

  datatype Option<T> = None | Some(value: T)

  /** The exceptions the Java service and the Python script raise, one constructor per exception class. */
  datatype Failure =
    | IllegalArgument      // IllegalArgumentException: neither root nor remote URL
    | NoSuchFile           // NoSuchFileException: missing root directory or `.git` directory
    | IOError              // any other IOException (git config, JGit I/O, walk errors)
    | GitApiError          // GitAPIException raised by JGit's log command
    | NullPointer          // NullPointerException from Path.getFileName() on "/"
    | IndexError           // Python IndexError from `split()[0]` on a blank string

  datatype Result<T> = Ok(value: T) | Err(failure: Failure)

  /** A Java or Python string that may be null / None. */
  predicate HasText(s: Option<string>)
  {
    s.Some? && s.value != ""
  }

  // ---------------------------------------------------------------------------
  // Time

  /** Milliseconds in one calendar day. */
  const MillisPerDay: int := 86_400_000

  /** An instant (java.util.Date) in milliseconds since the epoch. */
  type Instant = int
  /** A java.time.LocalDateTime, as milliseconds since 1970-01-01T00:00 wall-clock time. */
  type LocalDateTime = int
  /** A java.time.LocalDate, as a day number (day 0 is 1970-01-01). */
  type LocalDate = int

  /** The clock and the system time zone, a fixed offset from UTC. */
  datatype Clock = Clock(now: Instant, zoneOffset: int)

  /** LocalDateTime.ofInstant(when, ZoneId.systemDefault()). */
  function ToLocalDateTime(clock: Clock, when: Instant): (local: LocalDateTime)
  {
    when + clock.zoneOffset
  }

  /** LocalDateTime.toLocalDate(): the day the wall-clock time falls on. */
  function ToLocalDate(t: LocalDateTime): (d: LocalDate)
    ensures d * MillisPerDay <= t < (d + 1) * MillisPerDay
  {
    t / MillisPerDay
  }

  // ---------------------------------------------------------------------------
  // Commits and repositories

  /** org.eclipse.jgit.lib.PersonIdent. */
  datatype PersonIdent = PersonIdent(name: string, emailAddress: string, when: Instant)

  /** org.eclipse.jgit.revwalk.RevCommit, as far as the service reads it. */
  datatype RevCommit = RevCommit(name: string, authorIdent: PersonIdent, shortMessage: string)

  /** model/GitCommit.java. */
  datatype GitCommit = GitCommit(
    hash: string,
    authorName: string,
    authorEmail: string,
    date: LocalDateTime,
    message: string,
    repository: string)

  /** model/ContributionStats.java; the first and last commit are null when there are no commits. */
  datatype ContributionStats = ContributionStats(
    totalCommits: nat,
    commitsByDate: map<LocalDate, nat>,
    firstCommit: Option<GitCommit>,
    lastCommit: Option<GitCommit>)

  /** A filesystem path as its names below "/"; `[]` is "/" itself. */
  type Path = seq<string>

  /** Path.getParent() of a path that has one. */
  function Parent(p: Path): (q: Path)
    requires p != []
  {
    p[..|p| - 1]
  }

  /** Path.getFileName(), which is null for "/". */
  function FileName(p: Path): (name: Option<string>)
  {
    if p == [] then None else Some(p[|p| - 1])
  }

  /** model/GitRepository.java: a handle whose commit list is attached after discovery. */
  class GitRepository {
    var name: string
    var path: Path
    var commits: seq<GitCommit>

    constructor (name: string, path: Path, commits: seq<GitCommit>)
      ensures this.name == name && this.path == path && this.commits == commits
    {
      this.name := name;
      this.path := path;
      this.commits := commits;
    }
  }

  // ---------------------------------------------------------------------------
  // Directory trees

  /** A directory tree as the filesystem lists it; children are in listing order. */
  datatype FsNode = File(name: string) | Dir(name: string, children: seq<FsNode>)

  /** One element of Files.walk: a path and whether Files.isDirectory holds of it. */
  datatype Entry = Entry(path: Path, isDirectory: bool)

  /** Files.walk(path): the node itself, then each child's walk, depth first. */
  function Walk(path: Path, node: FsNode): (es: seq<Entry>)
    decreases node
  {
    match node
    case File(_) => [Entry(path, false)]
    case Dir(_, cs) => [Entry(path, true)] + WalkChildren(path, cs)
  }

  /** The walks of the children `cs` of the directory at `path`, in listing order. */
  function WalkChildren(path: Path, cs: seq<FsNode>): (es: seq<Entry>)
    decreases cs
  {
    if cs == [] then [] else Walk(path + [cs[0].name], cs[0]) + WalkChildren(path, cs[1..])
  }

  /** Every path Files.walk yields lies at or below the starting path. */
  lemma {:induction false} WalkBelow(path: Path, node: FsNode)
    ensures forall e :: e in Walk(path, node) ==> |path| <= |e.path| && e.path[..|path|] == path
    decreases node
  {
    match node
    case File(_) =>
    case Dir(_, cs) => WalkChildrenBelow(path, cs);
  }

  lemma {:induction false} WalkChildrenBelow(path: Path, cs: seq<FsNode>)
    ensures forall e :: e in WalkChildren(path, cs) ==> |path| < |e.path| && e.path[..|path|] == path
    decreases cs
  {
    if cs != [] {
      var p := path + [cs[0].name];
      WalkBelow(p, cs[0]);
      WalkChildrenBelow(path, cs[1..]);
      forall e | e in Walk(p, cs[0])
        ensures |path| < |e.path| && e.path[..|path|] == path
      {
        assert e.path[..|p|] == p;
        assert e.path[..|path|] == e.path[..|p|][..|path|];
      }
    }
  }
}
