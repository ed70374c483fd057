/**
  gitcontribs.py, the standalone script: repository discovery with os.walk,
  the statistics of the collected commits, the calendar row of the ASCII
  graph, and the `--email` override of `main`.
 */
module GitContribs {
  import opened Model
  import opened Tally
  import opened StableSort
  import opened GitService
  import opened ContributionService

  // ---------------------------------------------------------------------------
  // find_git_repositories

  /** Number of nodes in a tree: the measure os.walk's stack shrinks by. */
  function Size(node: FsNode): (n: nat)
    ensures n >= 1
    decreases node
  {
    match node
    case File(_) => 1
    case Dir(_, cs) => 1 + SizeAll(cs)
  }

  function SizeAll(cs: seq<FsNode>): (n: nat)
    decreases cs
  {
    if cs == [] then 0 else Size(cs[0]) + SizeAll(cs[1..])
  }

  lemma {:induction false} SizeMember(cs: seq<FsNode>, c: FsNode)
    requires c in cs
    ensures Size(c) <= SizeAll(cs)
  {
    if cs[0] != c {
      SizeMember(cs[1..], c);
    }
  }

  /** The subdirectories of a directory, in listing order (os.walk's `dirnames`). */
  function Subdirs(cs: seq<FsNode>): (ds: seq<FsNode>)
    ensures SizeAll(ds) <= SizeAll(cs)
    ensures forall c :: c in ds <==> c in cs && c.Dir?
  {
    if cs == [] then []
    else
      assert cs == [cs[0]] + cs[1..];
      var rest := Subdirs(cs[1..]);
      if cs[0].Dir? then
        assert ([cs[0]] + rest)[1..] == rest;
        [cs[0]] + rest
      else rest
  }

  /** The head and tail of a concatenation whose first part is non-empty. */
  lemma TailOfAppend<T>(a: seq<T>, b: seq<T>)
    requires a != []
    ensures (a + b)[0] == a[0] && (a + b)[1..] == a[1..] + b
  {
  }

  /** Listing order is kept: the subdirectories of a concatenated listing are those of each part, in turn. */
  lemma {:induction false} SubdirsAppend(a: seq<FsNode>, b: seq<FsNode>)
    ensures Subdirs(a + b) == Subdirs(a) + Subdirs(b)
    decreases |a|
  {
    if a != [] {
      var c := a + b;
      TailOfAppend(a, b);
      SubdirsAppend(a[1..], b);
      if a[0].Dir? {
        assert Subdirs(c) == [a[0]] + Subdirs(a[1..] + b);
        assert Subdirs(a) == [a[0]] + Subdirs(a[1..]);
      }
    } else {
      assert a + b == b;
    }
  }

  predicate NamesDistinct(ds: seq<FsNode>)
  {
    forall i, j :: 0 <= i < j < |ds| ==> ds[i].name != ds[j].name
  }

  function Names(ds: seq<FsNode>): (names: seq<string>)
  {
    seq(|ds|, i requires 0 <= i < |ds| => ds[i].name)
  }

  /** `dirnames.remove(name)`: drops the first entry with that name. */
  function RemoveFirstNamed(ds: seq<FsNode>, name: string): (r: seq<FsNode>)
    ensures SizeAll(r) <= SizeAll(ds)
    ensures forall c :: c in r ==> c in ds
    ensures forall c :: c in ds && c.name != name ==> c in r
  {
    if ds == [] then []
    else if ds[0].name == name then ds[1..]
    else
      assert ds == [ds[0]] + ds[1..];
      [ds[0]] + RemoveFirstNamed(ds[1..], name)
  }

  /** The subdirectories os.walk descends into after `dirnames.remove('.git')`. */
  function Pruned(subdirs: seq<FsNode>): (r: seq<FsNode>)
    ensures SizeAll(r) <= SizeAll(subdirs)
    ensures forall c :: c in r ==> c in subdirs
    ensures forall c :: c in subdirs && c.name != ".git" ==> c in r
  {
    if ".git" in Names(subdirs) then RemoveFirstNamed(subdirs, ".git") else subdirs
  }

  /**
    The directories find_git_repositories reports while os.walk visits the
    directory `node` at `path` top-down: the directory itself when one of its
    subdirectories is named `.git`, then what the remaining subdirectories
    report, in listing order. A file yields nothing (scandir fails on it and
    os.walk skips it).
   */
  function WalkRepos(path: Path, node: FsNode): (repos: seq<Path>)
    decreases Size(node), 0
  {
    match node
    case File(_) => []
    case Dir(_, cs) =>
      var subdirs := Subdirs(cs);
      (if ".git" in Names(subdirs) then [path] else []) + SubdirRepos(path, Pruned(subdirs))
  }

  function SubdirRepos(path: Path, ds: seq<FsNode>): (repos: seq<Path>)
    decreases SizeAll(ds), 1
  {
    if ds == [] then [] else WalkRepos(path + [ds[0].name], ds[0]) + SubdirRepos(path, ds[1..])
  }

  /** find_git_repositories(root_dir) over what is on disk at `rootDir`, if anything. */
  function Repos(rootDir: Path, root: Option<FsNode>): (repos: seq<Path>)
  {
    if root.None? then [] else WalkRepos(rootDir, root.value)
  }

  /** os.walk's stack: the entry on top (last) is walked first. */
  function StackRepos(stack: seq<(Path, FsNode)>): (repos: seq<Path>)
  {
    if stack == [] then []
    else WalkRepos(stack[|stack| - 1].0, stack[|stack| - 1].1) + StackRepos(stack[..|stack| - 1])
  }

  function StackSize(stack: seq<(Path, FsNode)>): (n: nat)
  {
    if stack == [] then 0 else Size(stack[|stack| - 1].1) + StackSize(stack[..|stack| - 1])
  }

  /** The entries os.walk pushes for the subdirectories `ds`: `reversed(dirs)`, so the first ends on top. */
  function PushOrder(path: Path, ds: seq<FsNode>): (pushed: seq<(Path, FsNode)>)
  {
    if ds == [] then [] else PushOrder(path, ds[1..]) + [(path + [ds[0].name], ds[0])]
  }

  lemma {:induction false} PushOrderRepos(stack: seq<(Path, FsNode)>, path: Path, ds: seq<FsNode>)
    ensures StackRepos(stack + PushOrder(path, ds)) == SubdirRepos(path, ds) + StackRepos(stack)
    ensures StackSize(stack + PushOrder(path, ds)) == SizeAll(ds) + StackSize(stack)
  {
    if ds != [] {
      var top := (path + [ds[0].name], ds[0]);
      var s := stack + PushOrder(path, ds);
      var s' := stack + PushOrder(path, ds[1..]);
      assert s == s' + [top];
      assert s[|s| - 1] == top && s[..|s| - 1] == s';
      PushOrderRepos(stack, path, ds[1..]);
      calc {
        StackRepos(s);
        WalkRepos(top.0, top.1) + StackRepos(s');
        WalkRepos(top.0, top.1) + (SubdirRepos(path, ds[1..]) + StackRepos(stack));
        (WalkRepos(top.0, top.1) + SubdirRepos(path, ds[1..])) + StackRepos(stack);
      }
    } else {
      assert stack + PushOrder(path, ds) == stack;
    }
  }

  /**
    The directory part of one step of the walk: os.walk lists the
    subdirectories, the script checks for `.git` and removes it.
   */
  method PruneGit(children: seq<FsNode>) returns (hasGit: bool, dirnames: seq<FsNode>)
    ensures hasGit == (".git" in Names(Subdirs(children)))
    ensures dirnames == Pruned(Subdirs(children))
  {
    dirnames := Subdirs(children);
    hasGit := ".git" in Names(dirnames);
    if hasGit {
      dirnames := RemoveFirstNamed(dirnames, ".git");
    }
  }

  /** os.walk's `for dirname in reversed(dirs): stack.append(join(top, dirname))`. */
  method PushSubdirs(stack: seq<(Path, FsNode)>, path: Path, dirs: seq<FsNode>)
    returns (pushed: seq<(Path, FsNode)>)
    ensures pushed == stack + PushOrder(path, dirs)
  {
    pushed := stack;
    var j := |dirs|;
    while j > 0
      invariant 0 <= j <= |dirs| && pushed == stack + PushOrder(path, dirs[j..])
    {
      j := j - 1;
      assert dirs[j..][1..] == dirs[j + 1..];
      pushed := pushed + [(path + [dirs[j].name], dirs[j])];
    }
    assert dirs[0..] == dirs;
  }

  lemma AppendAssoc<T>(a: seq<T>, b: seq<T>, c: seq<T>)
    ensures a + (b + c) == (a + b) + c
  {
  }

  lemma StackReposSnoc(base: seq<(Path, FsNode)>, path: Path, node: FsNode)
    ensures StackRepos(base + [(path, node)]) == WalkRepos(path, node) + StackRepos(base)
    ensures StackSize(base + [(path, node)]) == Size(node) + StackSize(base)
  {
    var stack := base + [(path, node)];
    assert stack[|stack| - 1] == (path, node) && stack[..|stack| - 1] == base;
  }

  /**
    One step of os.walk on a directory on top of the stack: popping it leaves
    what it reports itself followed by what the stack reports once its
    remaining subdirectories are pushed.
   */
  lemma PopDirectory(base: seq<(Path, FsNode)>, path: Path, node: FsNode)
    requires node.Dir?
    ensures var subdirs := Subdirs(node.children);
            StackRepos(base + [(path, node)]) ==
            (if ".git" in Names(subdirs) then [path] else []) + StackRepos(base + PushOrder(path, Pruned(subdirs)))
  {
    var subdirs := Subdirs(node.children);
    var rest := Pruned(subdirs);
    var here: seq<Path> := if ".git" in Names(subdirs) then [path] else [];
    StackReposSnoc(base, path, node);
    WalkReposDir(path, node);
    PushOrderRepos(base, path, rest);
    AppendAssoc(here, SubdirRepos(path, rest), StackRepos(base));
  }

  lemma WalkReposDir(path: Path, node: FsNode)
    requires node.Dir?
    ensures var subdirs := Subdirs(node.children);
            WalkRepos(path, node) == (if ".git" in Names(subdirs) then [path] else []) + SubdirRepos(path, Pruned(subdirs))
  {
  }

  /** Popping a directory and pushing its remaining subdirectories shrinks the stack. */
  lemma PopDirectoryShrinks(base: seq<(Path, FsNode)>, path: Path, node: FsNode)
    requires node.Dir?
    ensures StackSize(base + PushOrder(path, Pruned(Subdirs(node.children)))) < StackSize(base + [(path, node)])
  {
    var stack := base + [(path, node)];
    assert stack[|stack| - 1] == (path, node) && stack[..|stack| - 1] == base;
    var rest := Pruned(Subdirs(node.children));
    PushOrderRepos(base, path, rest);
    assert SizeAll(rest) <= SizeAll(Subdirs(node.children)) <= SizeAll(node.children) < Size(node);
  }

  /**
    find_git_repositories: every directory os.walk visits that has a `.git`
    subdirectory, in visiting order; the `.git` entry is removed from
    `dirnames` so the walk does not descend into it. os.walk keeps a stack of
    directories to visit, pops the top one, and pushes its remaining
    subdirectories last first. A missing root yields nothing.
   */
  method FindGitRepositories(rootDir: Path, root: Option<FsNode>) returns (gitRepos: seq<Path>)
    ensures gitRepos == Repos(rootDir, root)
  {
    gitRepos := [];
    var stack: seq<(Path, FsNode)> := [];
    if root.Some? {
      stack := [(rootDir, root.value)];
      StackReposSnoc([], rootDir, root.value);
      assert [] + stack == stack;
    }
    ghost var all := gitRepos + StackRepos(stack);
    assert all == Repos(rootDir, root);
    while stack != []
      invariant gitRepos + StackRepos(stack) == all
      decreases StackSize(stack)
    {
      var found;
      found, stack := VisitTop(stack);
      AppendAssoc(gitRepos, found, StackRepos(stack));
      gitRepos := gitRepos + found;
    }
  }

  /**
    One turn of os.walk's loop: pop the top entry; for a directory, report it
    when it has a `.git` subdirectory, drop `.git` from its subdirectories and
    push the rest.
   */
  method VisitTop(stack: seq<(Path, FsNode)>) returns (found: seq<Path>, next: seq<(Path, FsNode)>)
    requires stack != []
    ensures found + StackRepos(next) == StackRepos(stack)
    ensures StackSize(next) < StackSize(stack)
  {
    var dirpath := stack[|stack| - 1].0;
    var node := stack[|stack| - 1].1;
    next := stack[..|stack| - 1];
    assert stack == next + [(dirpath, node)];
    if node.File? {
      StackReposSnoc(next, dirpath, node);
      found := [];
      return;
    }
    PopDirectory(next, dirpath, node);
    PopDirectoryShrinks(next, dirpath, node);
    var hasGit, dirnames := PruneGit(node.children);
    found := if hasGit then [dirpath] else [];
    next := PushSubdirs(next, dirpath, dirnames);
  }

  // What os.walk visits, compared with the Files.walk listing

  /** The walk of a child `c` of the directory at `path` is part of the directory's walk. */
  lemma {:induction false} WalkChildrenContains(path: Path, cs: seq<FsNode>, c: FsNode)
    requires c in cs
    ensures forall e :: e in Walk(path + [c.name], c) ==> e in WalkChildren(path, cs)
  {
    if cs[0] != c {
      WalkChildrenContains(path, cs[1..], c);
    }
  }

  /** An entry of a directory's walk comes from the walk of one of its children. */
  lemma {:induction false} WalkChildrenMember(path: Path, cs: seq<FsNode>, e: Entry) returns (c: FsNode)
    requires e in WalkChildren(path, cs)
    ensures c in cs && e in Walk(path + [c.name], c)
  {
    if e in Walk(path + [cs[0].name], cs[0]) {
      c := cs[0];
    } else {
      c := WalkChildrenMember(path, cs[1..], e);
    }
  }

  /** The only entry of a walk at its starting path is the node itself. */
  lemma WalkStart(path: Path, node: FsNode, b: bool)
    requires Entry(path, b) in Walk(path, node)
    ensures b == node.Dir?
  {
    if node.Dir? && !b {
      WalkChildrenBelow(path, node.children);
    }
  }

  lemma {:induction false} SubdirReposContains(path: Path, ds: seq<FsNode>, d: FsNode)
    requires d in ds
    ensures forall p :: p in WalkRepos(path + [d.name], d) ==> p in SubdirRepos(path, ds)
    decreases ds
  {
    if ds[0] != d {
      SubdirReposContains(path, ds[1..], d);
    }
  }

  /** Every reported directory has a `.git` directory in the Files.walk listing. */
  lemma {:induction false} WalkReposSound(path: Path, node: FsNode)
    ensures forall p :: p in WalkRepos(path, node) ==> Entry(p + [".git"], true) in Walk(path, node)
    decreases Size(node), 0
  {
    match node
    case File(_) =>
    case Dir(_, cs) =>
      var subdirs := Subdirs(cs);
      SubdirReposSound(path, Pruned(subdirs), cs);
      if ".git" in Names(subdirs) {
        var i :| 0 <= i < |subdirs| && Names(subdirs)[i] == ".git";
        var g := subdirs[i];
        assert g in cs && g.Dir? && g.name == ".git";
        WalkChildrenContains(path, cs, g);
        assert Walk(path + [".git"], g)[0] == Entry(path + [".git"], true);
      }
  }

  lemma {:induction false} SubdirReposSound(path: Path, ds: seq<FsNode>, cs: seq<FsNode>)
    requires forall d :: d in ds ==> d in cs
    ensures forall p :: p in SubdirRepos(path, ds) ==> Entry(p + [".git"], true) in WalkChildren(path, cs)
    decreases SizeAll(ds), 1
  {
    if ds != [] {
      var d := ds[0];
      WalkReposSound(path + [d.name], d);
      WalkChildrenContains(path, cs, d);
      SubdirReposSound(path, ds[1..], cs);
    }
  }

  /**
    Every directory that has a `.git` directory in the Files.walk listing and
    lies under the root without passing through a directory named `.git` is
    reported.
   */
  lemma {:induction false} WalkReposComplete(path: Path, node: FsNode, q: Path)
    requires Entry(q + [".git"], true) in Walk(path, node)
    requires |path| <= |q| && q[..|path|] == path && ".git" !in q[|path|..]
    ensures q in WalkRepos(path, node)
    decreases Size(node)
  {
    var e := Entry(q + [".git"], true);
    match node
    case File(_) =>
    case Dir(_, cs) =>
      assert e in WalkChildren(path, cs);
      var c := WalkChildrenMember(path, cs, e);
      var p := path + [c.name];
      WalkBelow(p, c);
      assert e.path[..|p|] == p;
      var subdirs := Subdirs(cs);
      if |q| == |path| {
        assert q == path;
        assert e.path == e.path[..|p|] == p;
        assert c.name == p[|path|] == ".git";
        WalkStart(p, c, true);
        var i :| 0 <= i < |subdirs| && subdirs[i] == c;
        assert Names(subdirs)[i] == ".git";
      } else {
        assert q[|path|] == e.path[|path|] == p[|path|] == c.name;
        assert q[|path|] in q[|path|..];
        assert c.Dir?;
        var rest := Pruned(subdirs);
        assert c in rest;
        SizeMember(cs, c);
        assert q[..|p|] == p;
        assert q[|p|..] == q[|path|..][1..];
        WalkReposComplete(p, c, q);
        SubdirReposContains(path, rest, c);
      }
  }

  /** Directories whose subdirectories all have different names, as on disk. */
  ghost predicate DistinctNames(node: FsNode)
    decreases node
  {
    match node
    case File(_) => true
    case Dir(_, cs) =>
      NamesDistinct(cs) && forall i :: 0 <= i < |cs| ==> DistinctNames(cs[i])
  }

  /** Keeping some entries of a list with distinct names keeps them distinct. */
  lemma {:induction false} SubdirsDistinct(cs: seq<FsNode>)
    requires NamesDistinct(cs)
    ensures NamesDistinct(Subdirs(cs))
  {
    if cs != [] {
      var t := Subdirs(cs[1..]);
      SubdirsDistinct(cs[1..]);
      if cs[0].Dir? {
        var r := [cs[0]] + t;
        forall i, j | 0 <= i < j < |r|
          ensures r[i].name != r[j].name
        {
          if i == 0 {
            assert r[j] in cs[1..];
            var k :| 0 <= k < |cs[1..]| && cs[1..][k] == r[j];
            assert cs[k + 1] == r[j];
          } else {
            assert r[i] == t[i - 1] && r[j] == t[j - 1];
          }
        }
      }
    }
  }

  /** Removing the first entry named `n` from a list with distinct names leaves none named `n`. */
  lemma {:induction false} RemoveFirstNamedGone(ds: seq<FsNode>, n: string)
    requires NamesDistinct(ds)
    ensures forall c :: c in RemoveFirstNamed(ds, n) ==> c.name != n
  {
    if ds != [] {
      if ds[0].name == n {
        forall c | c in ds[1..]
          ensures c.name != n
        {
          var k :| 0 <= k < |ds[1..]| && ds[1..][k] == c;
          assert ds[k + 1] == c;
        }
      } else {
        assert NamesDistinct(ds[1..]) by {
          forall i, j | 0 <= i < j < |ds[1..]|
            ensures ds[1..][i].name != ds[1..][j].name
          {
            assert ds[1..][i] == ds[i + 1] && ds[1..][j] == ds[j + 1];
          }
        }
        RemoveFirstNamedGone(ds[1..], n);
      }
    }
  }

  /** With distinct names, os.walk never descends into a directory named `.git`. */
  lemma PrunedAvoidsGit(cs: seq<FsNode>)
    requires NamesDistinct(cs)
    ensures forall d :: d in Pruned(Subdirs(cs)) ==> d.name != ".git"
  {
    var subdirs := Subdirs(cs);
    if ".git" in Names(subdirs) {
      SubdirsDistinct(cs);
      RemoveFirstNamedGone(subdirs, ".git");
    } else {
      forall d | d in subdirs
        ensures d.name != ".git"
      {
        var i :| 0 <= i < |subdirs| && subdirs[i] == d;
        assert Names(subdirs)[i] == d.name;
      }
    }
  }

  /** No reported directory lies in or below a directory named `.git`. */
  lemma {:induction false} WalkReposAvoidGit(path: Path, node: FsNode)
    requires DistinctNames(node)
    ensures forall p :: p in WalkRepos(path, node) ==> |path| <= |p| && p[..|path|] == path && ".git" !in p[|path|..]
    decreases Size(node), 0
  {
    match node
    case File(_) =>
    case Dir(_, cs) =>
      var rest := Pruned(Subdirs(cs));
      PrunedAvoidsGit(cs);
      forall d | d in rest
        ensures DistinctNames(d) && d.name != ".git"
      {
        var i :| 0 <= i < |cs| && cs[i] == d;
      }
      SubdirReposAvoidGit(path, rest);
  }

  lemma {:induction false} SubdirReposAvoidGit(path: Path, ds: seq<FsNode>)
    requires forall d :: d in ds ==> DistinctNames(d) && d.name != ".git"
    ensures forall p :: p in SubdirRepos(path, ds) ==> |path| < |p| && p[..|path|] == path && ".git" !in p[|path|..]
    decreases SizeAll(ds), 1
  {
    if ds != [] {
      var d := ds[0];
      var q := path + [d.name];
      WalkReposAvoidGit(q, d);
      SubdirReposAvoidGit(path, ds[1..]);
      forall p | p in WalkRepos(q, d)
        ensures |path| < |p| && p[..|path|] == path && ".git" !in p[|path|..]
      {
        ChildAvoidsGit(path, d.name, p);
      }
      assert SubdirRepos(path, ds) == WalkRepos(q, d) + SubdirRepos(path, ds[1..]);
    }
  }

  /** A path in or below the child `name` of `path` avoids `.git` below `path` when it does below the child. */
  lemma ChildAvoidsGit(path: Path, name: string, p: Path)
    requires name != ".git"
    requires |path + [name]| <= |p| && p[..|path + [name]|] == path + [name] && ".git" !in p[|path + [name]|..]
    ensures |path| < |p| && p[..|path|] == path && ".git" !in p[|path|..]
  {
    var q := path + [name];
    assert p[..|path|] == p[..|q|][..|path|];
    assert p[|path|..] == [name] + p[|q|..];
  }

  /**
    What find_git_repositories reports, in terms of the Files.walk listing of
    the same tree: exactly the directories under the root whose path below the
    root has no component `.git` and that contain a `.git` directory.
   */
  lemma ReposExactly(rootDir: Path, root: FsNode, q: Path)
    requires DistinctNames(root)
    ensures q in Repos(rootDir, Some(root)) <==>
              |rootDir| <= |q| && q[..|rootDir|] == rootDir && ".git" !in q[|rootDir|..] &&
              Entry(q + [".git"], true) in Walk(rootDir, root)
  {
    WalkReposSound(rootDir, root);
    WalkReposAvoidGit(rootDir, root);
    if |rootDir| <= |q| && q[..|rootDir|] == rootDir && ".git" !in q[|rootDir|..] &&
       Entry(q + [".git"], true) in Walk(rootDir, root) {
      WalkReposComplete(rootDir, root, q);
    }
  }

  /**
    Whenever the Java service's search of the same root succeeds, every
    directory the script reports is the path of one of the handles it returns.
   */
  lemma ReposFoundByService(env: Environment, q: Path)
    requires env.rootTree.Some? && DiscoveryOk(env)
    ensures q in Repos(env.rootPath, env.rootTree) ==> q in LocalRepoPaths(env)
  {
    if q in Repos(env.rootPath, env.rootTree) {
      WalkReposSound(env.rootPath, env.rootTree.value);
      var dirs := GitDirPaths(Walk(env.rootPath, env.rootTree.value));
      var g := q + [".git"];
      assert g in dirs;
      var i :| 0 <= i < |dirs| && dirs[i] == g;
      assert Parent(g) == q;
      assert LocalRepoPaths(env)[i] == q;
    }
  }

  // ---------------------------------------------------------------------------
  // calculate_stats

  /** One commit as the JSON object git prints for it; `date` is git's ISO date text. */
  datatype PyCommit = PyCommit(hash: string, authorName: string, authorEmail: string, date: string, message: string)

  /** The dictionary calculate_stats returns; the first and last commit are None when there are no commits. */
  datatype PyStats = PyStats(
    totalCommits: nat,
    commitsByDate: map<string, nat>,
    firstCommit: Option<PyCommit>,
    lastCommit: Option<PyCommit>)

  /** str.isspace(): the characters str.split() separates on. */
  predicate IsSpace(c: char)
  {
    c == ' ' || '\t' <= c <= '\r' || '\U{1C}' <= c <= '\U{1F}' || c == '\U{85}' || c == '\U{A0}' ||
    c == '\U{1680}' || '\U{2000}' <= c <= '\U{200A}' || c == '\U{2028}' || c == '\U{2029}' ||
    c == '\U{202F}' || c == '\U{205F}' || c == '\U{3000}'
  }

  /** The first index at or after `i` whose character is not whitespace, or `|s|`. */
  function SkipSpace(s: string, i: nat): (j: nat)
    requires i <= |s|
    ensures i <= j <= |s| && (forall k :: i <= k < j ==> IsSpace(s[k])) && (j < |s| ==> !IsSpace(s[j]))
    decreases |s| - i
  {
    if i == |s| || !IsSpace(s[i]) then i else SkipSpace(s, i + 1)
  }

  /** The first index at or after `i` whose character is whitespace, or `|s|`. */
  function SkipWord(s: string, i: nat): (j: nat)
    requires i <= |s|
    ensures i <= j <= |s| && (forall k :: i <= k < j ==> !IsSpace(s[k])) && (j < |s| ==> IsSpace(s[j]))
    decreases |s| - i
  {
    if i == |s| || IsSpace(s[i]) then i else SkipWord(s, i + 1)
  }

  /** `f` is the word of `s` that starts at `i`, and only whitespace comes before it. */
  ghost predicate IsFirstWordAt(s: string, i: int, f: string)
  {
    0 <= i && i + |f| <= |s| && f != [] &&
    (forall k :: 0 <= k < i ==> IsSpace(s[k])) &&
    s[i..i + |f|] == f && (forall k :: 0 <= k < |f| ==> !IsSpace(f[k])) &&
    (i + |f| == |s| || IsSpace(s[i + |f|]))
  }

  /** `s.split()[0]`; None where Python raises IndexError because `s` is blank. */
  function FirstField(s: string): (r: Option<string>)
    ensures r.None? <==> forall k :: 0 <= k < |s| ==> IsSpace(s[k])
    ensures r.Some? ==> exists i :: IsFirstWordAt(s, i, r.value)
  {
    var i := SkipSpace(s, 0);
    if i == |s| then None
    else
      var j := SkipWord(s, i);
      assert IsFirstWordAt(s, i, s[i..j]);
      Some(s[i..j])
  }

  /** Every commit's date has a first field, so calculate_stats does not raise. */
  predicate AllDated(cs: seq<PyCommit>)
  {
    forall i :: 0 <= i < |cs| ==> FirstField(cs[i].date).Some?
  }

  /** The keys calculate_stats counts: the first field of each date, in order. */
  function DateKeys(cs: seq<PyCommit>): (ks: seq<string>)
    requires AllDated(cs)
    ensures |ks| == |cs|
  {
    if cs == [] then [] else DateKeys(cs[..|cs| - 1]) + [FirstField(cs[|cs| - 1].date).value]
  }

  /** Python's `<=` on str: lexicographic order of code points. */
  predicate LexLe(a: string, b: string)
    decreases |a|
  {
    a == [] || (b != [] && (a[0] < b[0] || (a[0] == b[0] && LexLe(a[1..], b[1..]))))
  }

  lemma {:induction false} LexLeTotal(a: string, b: string)
    ensures LexLe(a, b) || LexLe(b, a)
    decreases |a|
  {
    if a != [] && b != [] && a[0] == b[0] {
      LexLeTotal(a[1..], b[1..]);
    }
  }

  lemma {:induction false} LexLeTrans(a: string, b: string, c: string)
    requires LexLe(a, b) && LexLe(b, c)
    ensures LexLe(a, c)
    decreases |a|
  {
    if a != [] && a[0] == b[0] && b[0] == c[0] {
      LexLeTrans(a[1..], b[1..], c[1..]);
    }
  }

  /** The sort key of calculate_stats: `key=lambda x: x["date"]`. */
  predicate DateTextLe(x: PyCommit, y: PyCommit)
  {
    LexLe(x.date, y.date)
  }

  lemma DateTextLeTotalPreorder()
    ensures TotalPreorder(DateTextLe)
  {
    forall x: PyCommit, y: PyCommit
      ensures DateTextLe(x, y) || DateTextLe(y, x)
    {
      LexLeTotal(x.date, y.date);
    }
    forall x: PyCommit, y: PyCommit, z: PyCommit | DateTextLe(x, y) && DateTextLe(y, z)
      ensures DateTextLe(x, z)
    {
      LexLeTrans(x.date, y.date, z.date);
    }
  }

  /**
    The counting loop of calculate_stats: each commit adds one to the count of
    its date text; a blank date raises IndexError (None here).
   */
  method CountDates(commits: seq<PyCommit>) returns (r: Option<map<string, nat>>)
    ensures r.None? <==> !AllDated(commits)
    ensures r.Some? ==> AllDated(commits) && r.value == Histogram(DateKeys(commits))
  {
    var commitsByDate: map<string, nat> := map[];
    for i := 0 to |commits|
      invariant AllDated(commits[..i]) && commitsByDate == Histogram(DateKeys(commits[..i]))
    {
      var dateStr := FirstField(commits[i].date);
      if dateStr.None? {
        assert !FirstField(commits[i].date).Some?;
        return None;
      }
      assert commits[..i + 1][..i] == commits[..i] && commits[..i + 1][i] == commits[i];
      ghost var next := commits[..i + 1];
      forall k | 0 <= k < |next|
        ensures FirstField(next[k].date).Some?
      {
        if k < i {
          assert next[k] == commits[..i][k];
        }
      }
      assert DateKeys(commits[..i + 1]) == DateKeys(commits[..i]) + [dateStr.value];
      HistogramSnoc(DateKeys(commits[..i]), dateStr.value);
      if dateStr.value in commitsByDate {
        commitsByDate := commitsByDate[dateStr.value := commitsByDate[dateStr.value] + 1];
      } else {
        commitsByDate := commitsByDate[dateStr.value := 1];
      }
    }
    assert commits[..|commits|] == commits;
    return Some(commitsByDate);
  }

  /**
    calculate_stats(commits): the count, the number of commits per date text
    (the part of `date` before the first whitespace), and the first and last
    commit of the stable sort by the full `date` text. A commit whose date is
    blank makes `split()[0]` raise IndexError, which ends the call.
   */
  method CalculateStats(commits: seq<PyCommit>) returns (r: Result<PyStats>)
    ensures commits == [] ==> r == Ok(PyStats(0, map[], None, None))
    ensures r.Err? <==> !AllDated(commits)
    ensures r.Err? ==> r.failure == IndexError
    ensures r.Ok? ==>
              AllDated(commits) &&
              r.value.totalCommits == |commits| &&
              r.value.commitsByDate == Histogram(DateKeys(commits)) &&
              SumValues(r.value.commitsByDate) == r.value.totalCommits
    ensures r.Ok? ==> (r.value.firstCommit.None? <==> commits == []) && (r.value.lastCommit.None? <==> commits == [])
    ensures r.Ok? && commits != [] ==>
              exists i :: IsFirstLeast(commits, DateTextLe, i) && r.value.firstCommit == Some(commits[i])
    ensures r.Ok? && commits != [] ==>
              exists j :: IsLastGreatest(commits, DateTextLe, j) && r.value.lastCommit == Some(commits[j])
  {
    if commits == [] {
      return Ok(PyStats(0, map[], None, None));
    }
    var counted := CountDates(commits);
    if counted.None? {
      return Err(IndexError);
    }
    var commitsByDate := counted.value;
    HistogramTotal(DateKeys(commits));
    var sortedCommits := SortBy(commits, DateTextLe);
    DateTextLeTotalPreorder();
    var first := SortByHead(commits, DateTextLe);
    var last := SortByLast(commits, DateTextLe);
    return Ok(PyStats(|commits|, commitsByDate, Some(sortedCommits[0]), Some(sortedCommits[|sortedCommits| - 1])));
  }

  // ---------------------------------------------------------------------------
  // generate_ascii_graph: the date range and the row of cells

  /** The symbol for a day with `count` commits; the legend names the four ranges. */
  function Cell(count: int): (c: char)
    ensures count >= 0 ==>
              (c == '\U{B7}' <==> count == 0) && (c == '\U{25AA}' <==> 1 <= count <= 4) &&
              (c == '\U{25AB}' <==> 5 <= count <= 9) && (c == '\U{2588}' <==> count >= 10)
  {
    if count == 0 then '\U{B7}'
    else if count < 5 then '\U{25AA}'
    else if count < 10 then '\U{25AB}'
    else '\U{2588}'
  }

  /** `commits_by_date.get(date_str, 0)`. */
  function CountOn(commitsByDate: map<string, int>, date: string): (count: int)
  {
    if date in commitsByDate then commitsByDate[date] else 0
  }

  /**
    The date range and the cell row of generate_ascii_graph: the `days` days
    ending at `today`, each written by `format` (strftime("%Y-%m-%d")), and a
    row of four spaces followed by one symbol and one space per day.
   */
  method GraphRow(commitsByDate: map<string, int>, days: int, today: LocalDate, format: LocalDate -> string)
    returns (dateRange: seq<string>, row: string)
    ensures |dateRange| == if days > 0 then days else 0
    ensures forall i :: 0 <= i < |dateRange| ==> dateRange[i] == format(today - days + 1 + i)
    ensures |row| == 4 + 2 * |dateRange| && row[..4] == "    "
    ensures forall i :: 0 <= i < |dateRange| ==>
              row[4 + 2 * i] == Cell(CountOn(commitsByDate, dateRange[i])) && row[4 + 2 * i + 1] == ' '
  {
    var endDate := today;
    var startDate := endDate - (days - 1);
    dateRange := [];
    var currentDate := startDate;
    while currentDate <= endDate
      invariant currentDate == startDate + |dateRange|
      invariant dateRange != [] ==> currentDate <= endDate + 1
      invariant forall i :: 0 <= i < |dateRange| ==> dateRange[i] == format(startDate + i)
      decreases endDate + 1 - currentDate
    {
      dateRange := dateRange + [format(currentDate)];
      currentDate := currentDate + 1;
    }

    row := "    ";
    for k := 0 to |dateRange|
      invariant |row| == 4 + 2 * k && row[..4] == "    "
      invariant forall i :: 0 <= i < k ==>
                  row[4 + 2 * i] == Cell(CountOn(commitsByDate, dateRange[i])) && row[4 + 2 * i + 1] == ' '
    {
      var count := CountOn(commitsByDate, dateRange[k]);
      row := row + [Cell(count)];
      row := row + " ";
    }
  }

  /** A day of the range shows the empty symbol exactly when no commit of the statistics falls on it. */
  lemma EmptyCellIffNoCommits(keys: seq<string>, date: string)
    ensures Cell(CountOn(Histogram(keys), date)) == '\U{B7}' <==> date !in keys
  {
    if date in keys {
      assert Count(keys, date) > 0;
    }
  }

  // ---------------------------------------------------------------------------
  // main

  /** `if args.email: user_email = args.email`: a non-empty `--email` replaces the configured email. */
  function UserEmail(configured: string, email: Option<string>): (r: string)
  {
    if HasText(email) then email.value else configured
  }

  /**
    The script and the Java service pick the same filter email except when
    the explicit email is the empty string: the service then uses it (and so
    filters by nothing), the script falls back to the configured one.
   */
  lemma EmailOverrideAgrees(configured: string, email: Option<string>)
    ensures UserEmail(configured, email) == FilterEmail(email, configured) <==> email != Some("") || configured == ""
  {
  }
}
