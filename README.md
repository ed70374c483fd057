# Git contribution counting, modelled in Dafny

This project models the contribution-counting core of the Github-Visualisation
repository. The repository has two implementations of it:

- **The Java web service.**
  - `GitService` finds the Git repositories under a root directory. It reads
    each repository's JGit log, keeping the commits of one author since a
    cut-off date, and turns a commit list into statistics: the total, commits
    per local date, and the first and last commit.
  - `ContributionService.generateContributions` works through a request in
    order:
    - validates it;
    - resolves the user and the filter email;
    - gathers the repositories (one cloned remote, or every local one);
    - merges their commit lists in order;
    - copies the statistics into the response.
- **The Python script `gitcontribs.py`.**
  - `find_git_repositories` uses `os.walk` and prunes `.git`.
  - `calculate_stats` counts commits per date text and sorts by the `date`
    string.
  - `generate_ascii_graph` builds a range of dates and a row of cells with
    four symbols.
  - `main` lets `--email` override the configured email.

The modules follow those files:

- **`Model`**: the shared records (`GitCommit`, `ContributionStats`), the
  `GitRepository` handle as a class, the time representation and the
  exceptions. It also holds the directory tree and the `Files.walk` listing
  of it.
- **`Tally`**: the per-key counting map, with a ghost sum of its values.
- **`StableSort`**: a stable insertion sort, the reference for the stable
  library sorts (`stream().sorted`, Python's `sorted`). It proves which
  element of the input ends up first and which last.
- **`GitService`**: `findGitRepositories`, the filter loop of `getCommits`,
  and `calculateStats`.
- **`ContributionService`**: `generateContributions`, split into the
  repository gathering, the merge loop and the summary.
- **`GitContribs`**: the Python script.

Everything the code reads from outside becomes a value the caller passes in:

- the directory tree;
- JGit's log for each path;
- the resolved git identity;
- the cloned remote repository;
- the clock and the zone offset;
- the `strftime` date formatter.

Times are integer milliseconds. A `LocalDate` is a day number.

Where the code departs from what its comments and names suggest, the model
follows the code:

- A repository that cannot be read fails the whole `generateContributions`
  call. The read is not skipped.
- Ties for the first and last commit go to input order, because the sorts are
  stable.
- The Java walk reports every directory named `.git`, including ones inside
  other `.git` directories.

## Model

| member | source | states |
|---|---|---|
| Model.ToLocalDate | src/main/java/com/example/gitcontributions/service/GitService.java:163 | the local date is the day whose 24-hour span contains the local date-time |
| GitService.GitDirPaths | src/main/java/com/example/gitcontributions/service/GitService.java:48-52 | a path is kept exactly when the walk lists it as a directory whose file name is `.git`; no more paths than walk entries |
| GitService.GitDirPathsAppend | src/main/java/com/example/gitcontributions/service/GitService.java:49-52 | the filtered stream keeps walk order: filtering a concatenation filters each part |
| GitService.FindGitRepositories | src/main/java/com/example/gitcontributions/service/GitService.java:39-70 | a missing root raises NoSuchFile; a nameless directory (`/`) raises NullPointer; otherwise there is one new, distinct handle per `.git` directory, in walk order, with path = parent, name = the parent's file name and no commits |
| GitService.RepositoriesFor | src/main/java/com/example/gitcontributions/service/GitService.java:54-63 | one new, distinct handle per `.git` directory, in order, with path = parent, name = the parent's file name and no commits; NullPointer exactly when some parent has no file name |
| GitService.KeptCommits | src/main/java/com/example/gitcontributions/service/GitService.java:102-130 | every kept commit carries the repository name, is dated no earlier than `since` and, when the filter is non-empty, has exactly the filter email; every log entry that passes both guards is kept |
| GitService.KeptCommitsSound | src/main/java/com/example/gitcontributions/service/GitService.java:106-129 | every kept commit is the conversion of a log entry that passes both `continue` guards |
| GitService.KeptCommitsAppend | src/main/java/com/example/gitcontributions/service/GitService.java:102-130 | kept commits are in log order: filtering a concatenated log filters each part and concatenates |
| GitService.KeptCommitsIgnoreAuthor | src/main/java/com/example/gitcontributions/service/GitService.java:112-115 | with a null or empty author filter, the result equals the result with no author check at all |
| GitService.GetCommits | src/main/java/com/example/gitcontributions/service/GitService.java:82-142 | an unreadable log raises its exception and leaves the handle unchanged; otherwise the handle's commits become exactly the kept commits of the log, name and path unchanged, and the same handle is returned |
| GitService.CalculateStats | src/main/java/com/example/gitcontributions/service/GitService.java:150-180 | total = number of commits = sum of the per-date counts; the per-date map is the histogram of the commits' local dates; no commits gives an empty map and no first or last; otherwise first is the earliest least and last is the latest greatest commit by date-time |
| GitService.CountByDate | src/main/java/com/example/gitcontributions/service/GitService.java:159-167 | the counting loop yields the histogram of the commits' local dates |
| Tally.Count | src/main/java/com/example/gitcontributions/service/GitService.java:166 | a key's count is positive exactly when the key occurs, and is at most the list length |
| Tally.HistogramSnoc | src/main/java/com/example/gitcontributions/service/GitService.java:166 | counting one more key is `put(key, getOrDefault(key, 0) + 1)` |
| Tally.HistogramTotal | src/main/java/com/example/gitcontributions/service/GitService.java:159-167 | the values of the per-key map sum to the number of keys counted |
| Tally.CountAppend | src/main/java/com/example/gitcontributions/service/ContributionService.java:95-107 | counting a concatenation counts each part and adds |
| StableSort.SortBy | src/main/java/com/example/gitcontributions/service/GitService.java:170-172 | the sort keeps length and multiset of elements |
| StableSort.SortBySorted | src/main/java/com/example/gitcontributions/service/GitService.java:170-172 | for a total preorder the sorted list is ordered |
| StableSort.SortByHead | src/main/java/com/example/gitcontributions/service/GitService.java:177 | the head of the stable sort is the earliest element that is below or equal to every element |
| StableSort.SortByLast | src/main/java/com/example/gitcontributions/service/GitService.java:178 | the last element of the stable sort is the latest element that is above or equal to every element |
| ContributionService.ConcatLength | src/main/java/com/example/gitcontributions/service/ContributionService.java:95-104 | the merged list is as long as all repository lists together |
| ContributionService.ConcatCountOnDay | src/main/java/com/example/gitcontributions/service/ContributionService.java:95-115 | the merged count of a day is the sum of that day's counts over all repositories |
| ContributionService.MergeOutcomeOk | src/main/java/com/example/gitcontributions/service/ContributionService.java:95-104 | the first `n` turns of the merge loop succeed exactly when each of those handles without commits has a readable log, and then yield the in-order concatenation of the first `n` handles' lists (their own commits, or the kept commits of their logs) |
| ContributionService.MergeOutcomeErr | src/main/java/com/example/gitcontributions/service/ContributionService.java:95-104 | when the first `n` turns fail, the exception is that of the first handle without commits whose log cannot be read, and that handle is among the first `n` |
| ContributionService.MergeOutcomeStops | src/main/java/com/example/gitcontributions/service/ContributionService.java:97-99 | once the loop has failed after `m` turns, the later turns do not change the outcome: the exception ends the loop |
| ContributionService.CollectCommits | src/main/java/com/example/gitcontributions/service/ContributionService.java:95-104 | for handles whose names, paths and commit lists are the snapshot `names`, `paths`, `initial`: the result is the merge outcome of that snapshot over all handles (so, by the three lemmas above, success exactly when every handle without commits is readable, then the in-order concatenation, else the first unreadable handle's exception); names and paths unchanged; on success every handle holds its own commits or its kept commits (`HandlesAfter` all turns) |
| ContributionService.ReadRepository | src/main/java/com/example/gitcontributions/service/ContributionService.java:96-103 | a handle with commits keeps them; one without is read by getCommits; fails exactly when it has no commits and its log is unreadable, with that log's own exception; name and path unchanged |
| ContributionService.ReadTurn | src/main/java/com/example/gitcontributions/service/ContributionService.java:96-103 | turn `i` of the loop reads handle `i` as `ReadRepository` says, fails exactly when it has no commits and an unreadable log, with that log's exception, and changes no other handle: the handles go from `HandlesAfter` `i` turns to `i + 1` |
| ContributionService.GatherRepositories | src/main/java/com/example/gitcontributions/service/ContributionService.java:54-78 | a remote URL gives exactly one new handle from the clone, or the clone's failure; otherwise a missing root raises NoSuchFile, a walk meeting a directory or parent without a file name raises NullPointer, and else the repositories found under the root, one new distinct handle each |
| ContributionService.Summarize | src/main/java/com/example/gitcontributions/service/ContributionService.java:80-118 | for handles matching the snapshot `names`, `paths`, `lists`: succeeds exactly when every handle without commits is readable, and otherwise raises the exception of the first one that is not; on success the response carries the user, the handles, each holding its own or its read list, and `ResponseTotals`: repository count, total commits, the histogram of the merged list and `overallStats` as its statistics (`StatsOf`: count, per-date map, earliest least first and latest greatest last commit); no repositories gives the empty response |
| ContributionService.SummaryTotals | src/main/java/com/example/gitcontributions/service/ContributionService.java:106-118 | a response built from the statistics of the merged list of a non-empty handle list has the promised totals and `overallStats` |
| ContributionService.SummarizeDiscovered | src/main/java/com/example/gitcontributions/service/ContributionService.java:80-118 | for discovered handles, which carry no commits: succeeds exactly when every log is readable, else raises the first unreadable log's exception; on success each handle holds its kept commits, names and paths unchanged, with `ResponseTotals` |
| ContributionService.AnalyzeRemote | src/main/java/com/example/gitcontributions/service/ContributionService.java:56-118 | with a remote URL: a failed clone raises its exception; otherwise the result is one repository, the clone, read unless it already has commits, or the exception of its unreadable log; the totals are those of that repository |
| ContributionService.AnalyzeLocal | src/main/java/com/example/gitcontributions/service/ContributionService.java:66-118 | without a remote URL: a missing root raises NoSuchFile, a nameless directory NullPointer; otherwise one repository per `.git` directory in walk order, each read from its log; it fails exactly when some log is unreadable, with the first such log's exception; the totals are those of the merged list |
| ContributionService.GenerateContributions | src/main/java/com/example/gitcontributions/service/ContributionService.java:40-119 | an invalid request raises IllegalArgument before anything else; a failing identity lookup raises its exception; the user name is the configured one and the filter email is the request's when it is non-null; a remote URL takes precedence: a failed clone raises its exception, otherwise one repository; a missing root raises NoSuchFile and a nameless directory NullPointer; it succeeds exactly when every repository to read is readable, and otherwise raises the exception of the first unreadable one; totalRepositories is the repository count, totalCommits the total over all repositories, commitsByDate the histogram of the merged list, and `overallStats` its statistics with the stable first and last commit |
| GitContribs.Subdirs | gitcontribs.py:27 | `dirnames` holds exactly the directory children and is no larger than the listing |
| GitContribs.SubdirsAppend | gitcontribs.py:27 | `dirnames` keeps listing order: the subdirectories of a concatenated listing are those of each part, in turn |
| GitContribs.RemoveFirstNamed | gitcontribs.py:31 | `list.remove` keeps every entry with another name and adds none |
| GitContribs.Pruned | gitcontribs.py:28-31 | every subdirectory left to descend into was listed, and every listed subdirectory not named `.git` is left |
| GitContribs.PrunedAvoidsGit | gitcontribs.py:28-31 | with distinct names in the directory, no subdirectory named `.git` is left to descend into |
| GitContribs.FindGitRepositories | gitcontribs.py:15-33 | the stack-driven walk reports exactly the directories of the recursive top-down walk with `.git` pruned, in visiting order |
| GitContribs.VisitTop | gitcontribs.py:27-31 | one turn of the walk: what it reports followed by what the new stack reports is what the old stack reported, and the stack shrinks |
| GitContribs.PruneGit | gitcontribs.py:28-31 | the flag and the remaining list are `Pruned(Subdirs(children))`; what that means is stated by `Pruned` (every non-`.git` subdirectory stays, none is added) and by `PrunedAvoidsGit` (with distinct names no `.git` directory stays) |
| GitContribs.PopDirectory | gitcontribs.py:27-31 | popping a directory reports it when it has `.git`, then exactly what its pushed subdirectories and the rest of the stack report |
| GitContribs.PushSubdirs | gitcontribs.py:27 | the remaining subdirectories are pushed last first, so they are visited in listing order |
| GitContribs.PushOrderRepos | gitcontribs.py:27-31 | pushing the subdirectories visits each subtree completely, in listing order, before the rest of the stack |
| GitContribs.WalkReposSound | gitcontribs.py:28-29 | every reported directory has a `.git` directory in the `Files.walk` listing of the tree |
| GitContribs.WalkReposComplete | gitcontribs.py:27-31 | every directory that has a `.git` directory and is reached without passing through a `.git` directory is reported |
| GitContribs.WalkReposAvoidGit | gitcontribs.py:30-31 | with distinct names in each directory, no reported directory lies in or below a `.git` directory |
| GitContribs.ReposExactly | gitcontribs.py:15-33 | the reported directories are exactly those below the root with no `.git` component and with a `.git` subdirectory (both directions) |
| GitContribs.ReposFoundByService | gitcontribs.py:15-33 | whenever the Java `findGitRepositories` succeeds on the same tree, every directory the script reports is the path of one of the handles it returns |
| GitContribs.FirstField | gitcontribs.py:134 | `split()[0]` is the first maximal run of non-whitespace, after leading whitespace only; it is missing exactly when the text is blank |
| GitContribs.DateKeys | gitcontribs.py:134 | one key per commit |
| GitContribs.LexLeTotal | gitcontribs.py:143 | string order is total |
| GitContribs.LexLeTrans | gitcontribs.py:143 | string order is transitive |
| GitContribs.CountDates | gitcontribs.py:132-140 | fails exactly when some date is blank; otherwise the map is the histogram of the first date fields |
| GitContribs.CalculateStats | gitcontribs.py:105-148 | no commits gives 0, an empty map and no first or last; a blank date raises IndexError (exactly then); otherwise total = length = sum of the per-date counts, the map is the histogram of the first date fields, and first and last are the earliest least and latest greatest by `date` string |
| GitContribs.Cell | gitcontribs.py:194-202 | the symbol is `·` exactly for 0, `▪` for 1 to 4, `▫` for 5 to 9, `█` for 10 or more, as the legend at lines 209-212 says |
| GitContribs.GraphRow | gitcontribs.py:161-205 | the range has `days` dates (none when `days` is not positive), consecutive and ending today; the row is four spaces and then, per date, its symbol (missing dates count 0) and a space |
| GitContribs.EmptyCellIffNoCommits | gitcontribs.py:192-196 | over the statistics' map, a date shows `·` exactly when no commit falls on it |
| GitContribs.EmailOverrideAgrees | gitcontribs.py:225-227 | the script's filter email equals the service's except when the explicit email is the empty string and the configured one is not |

## Left out

- **Identity lookup** (`getGitUser`, `get_git_user`). This is process I/O. The resolved identity, or the IOException the Java method raises, is an input. The `"Unknown"` defaults are not modelled.
- **JGit internals.** Opening the repository and `git.log().all()` are not modelled. The log is an input sequence per path, or one of the three ways reading it fails. Log order is whatever JGit hands back.
- **`cloneAndAnalyzeRemoteRepository`.** It is not defined in the repository; its result is an input. `ContributionRequest.java` has no `remoteRepoUrl` field, so the model adds one.
- **Filesystem walking.** `Files.walk` and `os.walk` I/O errors are left out, as are symbolic links, hidden permissions and relative paths. The tree is an input with absolute paths. For a root that is not a directory, `os.walk` yields nothing, and so does the model.
- GitContribs.WalkReposAvoidGit: it assumes each directory's children have distinct names, as on a real disk. With duplicate `.git` names, `remove` drops only the first.
- **Python `get_commits`.** It shells out to `git log` and parses JSON. Its filtering happens inside git.
- **`main`'s printing and merge loop.** Only the `--email` override is modelled.
- **Time.** The real clock, time zones and daylight saving time are not modelled. The zone is a fixed offset, and `LocalDateTime.now().minusDays(days)` is `now - days` whole days.
- **Python date limits.** The `OverflowError` for date ranges outside year 1 to 9999 is not modelled.
- **`strftime("%Y-%m-%d")`.** It is a parameter. The month header line, `strftime("%b")` and the legend text are not modelled.
- **Java integer widths.** Commit counts are unbounded. A `HashMap` is a map. A null commit list counts as empty.
- **Framework code.** The HTTP controller, exception-to-status mapping, validation annotations (such as `@Min(1)` on days), Lombok and logging are not modelled.
- **Concurrency.** None exists; the code is sequential.
- **Split helpers.** `generateContributions` is modelled as `GenerateContributions`, which validates the request, resolves the user and hands the remote and local cases to `AnalyzeRemote` and `AnalyzeLocal`. These chain `GatherRepositories` and `Summarize` (`AnalyzeLocal` through `SummarizeDiscovered`), and `Summarize` runs the merge loop `CollectCommits`. The loop reads one handle per turn through `ReadTurn` and `ReadRepository`. `Summarize`, `CollectCommits` and `ReadTurn` take the handles' names, paths and commit lists at entry as ghost parameters; the state they describe is the same. `findGitRepositories` hands its loop over the `.git` directories to `RepositoriesFor`, and `calculateStats` its counting loop to `CountByDate`. In `gitcontribs.py`, one turn of the `os.walk` loop is `VisitTop`, the `.git` check is `PruneGit`, the push loop is `PushSubdirs` and the counting loop of `calculate_stats` is `CountDates`.
