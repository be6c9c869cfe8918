/**
 Repository discovery: the top-down walk of `find_git_repos`.

 The file system is an abstract tree of named files and directories, and a
 path is the sequence of names from the top of the walk. Python's
 `os.walk` visits a directory, then each of its subdirectories in listing
 order; the tool records every directory that lists a `.git`
 subdirectory and takes `.git` out of the list, so the walk never enters
 it.
 */
module Discovery {

  const GitDir: string := ".git"

  /** An entry of the file system. */
  datatype Node = File(name: string) | Dir(name: string, children: seq<Node>)

  /** Names from the top of the walk down to an entry, both included. */
  type Path = seq<string>

  /** `".git" in dirs`: the directory lists a `.git` subdirectory. A file
      named `.git` does not count. */
  predicate HasGitDir(children: seq<Node>)
  {
    exists k | 0 <= k < |children| :: children[k].Dir? && children[k].name == GitDir
  }

  /** `p` extends `base`. */
  predicate Extends(p: Path, base: Path)
  {
    |base| <= |p| && p[..|base|] == base
  }

  /** The paths `os.walk` yields below `n`, whose own path is `path`, that
      list a `.git` subdirectory: `n` itself first, then its subdirectories
      in listing order. */
  function Walk(n: Node, path: Path): (r: seq<Path>)
    ensures forall i | 0 <= i < |r| :: Extends(r[i], path)
    decreases n, 1
  {
    match n
    case File(_) => []
    case Dir(_, children) =>
      (if HasGitDir(children) then [path] else []) + WalkChildren(children, path)
  }

  /** The walk of the subdirectories of a directory whose path is `path`,
      in listing order. Everything found lies strictly below `path`. */
  function WalkChildren(children: seq<Node>, path: Path): (r: seq<Path>)
    ensures forall i | 0 <= i < |r| :: Extends(r[i], path) && |r[i]| > |path|
    decreases children, 0
  {
    if |children| == 0 then []
    else WalkChild(children[0], path) + WalkChildren(children[1..], path)
  }

  /** The walk below one entry listed in the directory at `path`: nothing
      for a file or for the `.git` directory, which is never entered.
      Everything found lies below the entry. */
  function WalkChild(c: Node, path: Path): (r: seq<Path>)
    ensures forall i | 0 <= i < |r| :: Extends(r[i], path) && |r[i]| > |path| && r[i][|path|] == c.name
    decreases c, 2
  {
    if c.Dir? && c.name != GitDir then
      var r := Walk(c, path + [c.name]);
      assert forall i | 0 <= i < |r| :: r[i][..|path| + 1] == path + [c.name];
      r
    else []
  }

  /** `find_git_repos(root_dir)`. */
  function FindGitRepos(top: Node): seq<Path>
  {
    Walk(top, [top.name])
  }

  /** Following the names of `rel` down from `n`, never through a `.git`
      directory, arrives at a directory that lists a `.git` subdirectory. */
  ghost predicate RepoAt(n: Node, rel: Path)
    decreases rel
  {
    && n.Dir?
    && if |rel| == 0 then HasGitDir(n.children)
       else
         && rel[0] != GitDir
         && exists k | 0 <= k < |n.children| :: n.children[k].name == rel[0] && RepoAt(n.children[k], rel[1..])
  }

  /** The walk finds exactly the repositories below `n`. */
  lemma {:induction false} WalkMeaning(n: Node, path: Path, p: Path)
    ensures p in Walk(n, path) <==> Extends(p, path) && RepoAt(n, p[|path|..])
    decreases n, 1
  {
    match n
    case File(_) =>
    case Dir(_, children) =>
      WalkChildrenMeaning(children, path, p);
      if Extends(p, path) {
        var rel := p[|path|..];
        if |p| == |path| {
          assert p == p[..|path|];
        } else {
          assert rel[0] == p[|path|] && rel[1..] == p[|path| + 1..];
          assert (exists k | 0 <= k < |children| :: Via(children[k], path, p)) <==> RepoAt(n, rel);
        }
      }
  }

  /** `p` is a repository below `path` by way of the entry `c` listed in
      the directory at `path`. */
  ghost predicate Via(c: Node, path: Path, p: Path)
  {
    && Extends(p, path) && |p| > |path| && p[|path|] != GitDir
    && c.name == p[|path|] && RepoAt(c, p[|path| + 1..])
  }

  /** The walk of one listed entry finds exactly the repositories by way of it. */
  lemma {:induction false} WalkChildMeaning(c: Node, path: Path, p: Path)
    ensures p in WalkChild(c, path) <==> Via(c, path, p)
    decreases c, 2
  {
    var inner := path + [c.name];
    if c.Dir? && c.name != GitDir {
      WalkMeaning(c, inner, p);
      if Extends(p, path) && |p| > |path| {
        assert Extends(p, inner) <==> p[|path|] == c.name by {
          assert p[..|inner|] == p[..|path|] + [p[|path|]];
        }
        assert p[|inner|..] == p[|path| + 1..];
      } else {
        assert !Extends(p, inner);
      }
    }
  }

  /** The walk of the subdirectories finds exactly the repositories by way
      of one of them. */
  lemma {:induction false} WalkChildrenMeaning(children: seq<Node>, path: Path, p: Path)
    ensures p in WalkChildren(children, path) <==> exists k | 0 <= k < |children| :: Via(children[k], path, p)
    decreases children, 1
  {
    if |children| > 0 {
      var c := children[0];
      var rest := children[1..];
      var here := WalkChild(c, path);
      var later := WalkChildren(rest, path);
      WalkChildMeaning(c, path, p);
      WalkChildrenMeaning(rest, path, p);
      if p in here {
        assert Via(children[0], path, p);
      } else if p in later {
        var k :| 0 <= k < |rest| && Via(rest[k], path, p);
        assert Via(children[k + 1], path, p);
      } else {
        forall k | 0 <= k < |children| ensures !Via(children[k], path, p) {
          if k > 0 {
            assert children[k] == rest[k - 1];
          }
        }
      }
    }
  }

  /** Everything the walk of the subdirectories finds lies below one of them. */
  lemma WalkChildrenName(children: seq<Node>, path: Path, p: Path) returns (k: nat)
    requires p in WalkChildren(children, path)
    ensures k < |children| && |p| > |path| && children[k].name == p[|path|]
  {
    WalkChildrenMeaning(children, path, p);
    k :| 0 <= k < |children| && Via(children[k], path, p);
  }

  /** Every directory of the tree lists its entries under distinct names,
      as a file system does. */
  ghost predicate UniqueNames(n: Node)
    decreases n
  {
    n.Dir? ==>
      && (forall i, j | 0 <= i < j < |n.children| :: n.children[i].name != n.children[j].name)
      && forall k | 0 <= k < |n.children| :: UniqueNames(n.children[k])
  }

  /** `q` lies strictly below `p`. */
  predicate Below(q: Path, p: Path)
  {
    |p| < |q| && Extends(q, p)
  }

  /** No path is reported twice. */
  predicate Distinct(r: seq<Path>)
  {
    forall i, j | 0 <= i < j < |r| :: r[i] != r[j]
  }

  /** A repository is reported before every repository nested in it. */
  predicate TopDown(r: seq<Path>)
  {
    forall i, j | 0 <= i < |r| && 0 <= j < |r| && Below(r[j], r[i]) :: i < j
  }

  /** Nothing in `b` equals or contains anything in `a`. */
  predicate Apart(a: seq<Path>, b: seq<Path>)
  {
    forall i, j | 0 <= i < |a| && 0 <= j < |b| :: a[i] != b[j] && !Below(a[i], b[j])
  }

  lemma AppendOrdered(a: seq<Path>, b: seq<Path>)
    requires Distinct(a) && TopDown(a) && Distinct(b) && TopDown(b) && Apart(a, b)
    ensures Distinct(a + b) && TopDown(a + b)
  {
    var r := a + b;
    forall i, j | 0 <= i < |r| && 0 <= j < |r| && Below(r[j], r[i]) ensures i < j {
      if i >= |a| && j >= |a| {
        assert r[j] == b[j - |a|] && r[i] == b[i - |a|];
      }
    }
    forall i, j | 0 <= i < j < |r| ensures r[i] != r[j] {
      if i < |a| && j >= |a| {
        assert r[i] == a[i] && r[j] == b[j - |a|];
      } else if j < |a| {
        assert r[i] == a[i] && r[j] == a[j];
      } else {
        assert r[i] == b[i - |a|] && r[j] == b[j - |a|];
      }
    }
  }

  /** In a tree with distinct names, the walk reports each repository once,
      and a repository before those nested in it. */
  lemma {:induction false} WalkOrdered(n: Node, path: Path)
    requires UniqueNames(n)
    ensures Distinct(Walk(n, path)) && TopDown(Walk(n, path))
    decreases n, 1
  {
    match n
    case File(_) =>
    case Dir(_, children) =>
      WalkChildrenOrdered(children, path);
      var here: seq<Path> := if HasGitDir(children) then [path] else [];
      var later := WalkChildren(children, path);
      AppendOrdered(here, later);
  }

  lemma {:induction false} WalkChildrenOrdered(children: seq<Node>, path: Path)
    requires forall i, j | 0 <= i < j < |children| :: children[i].name != children[j].name
    requires forall k | 0 <= k < |children| :: UniqueNames(children[k])
    ensures Distinct(WalkChildren(children, path)) && TopDown(WalkChildren(children, path))
    decreases children, 0
  {
    if |children| > 0 {
      var c := children[0];
      WalkChildOrdered(c, path);
      WalkChildrenOrdered(children[1..], path);
      SiblingsApart(children, path);
      AppendOrdered(WalkChild(c, path), WalkChildren(children[1..], path));
    }
  }

  lemma {:induction false} WalkChildOrdered(c: Node, path: Path)
    requires UniqueNames(c)
    ensures Distinct(WalkChild(c, path)) && TopDown(WalkChild(c, path))
    decreases c, 2
  {
    if c.Dir? && c.name != GitDir {
      WalkOrdered(c, path + [c.name]);
    }
  }

  /** What the walk finds below the first entry is apart from what it
      finds below the later ones, whose names differ. */
  lemma SiblingsApart(children: seq<Node>, path: Path)
    requires |children| > 0
    requires forall i, j | 0 <= i < j < |children| :: children[i].name != children[j].name
    ensures Apart(WalkChild(children[0], path), WalkChildren(children[1..], path))
  {
    var here := WalkChild(children[0], path);
    var later := WalkChildren(children[1..], path);
    forall i, j | 0 <= i < |here| && 0 <= j < |later|
      ensures here[i] != later[j] && !Below(here[i], later[j])
    {
      var k := WalkChildrenName(children[1..], path, later[j]);
      assert children[k + 1].name != children[0].name;
    }
  }

  /** `find_git_repos` reports exactly the directories at or below the top
      that list a `.git` subdirectory, reached without entering any `.git`
      directory. */
  lemma FindMeaning(top: Node, p: Path)
    ensures p in FindGitRepos(top) <==> |p| >= 1 && p[0] == top.name && RepoAt(top, p[1..])
  {
    WalkMeaning(top, [top.name], p);
  }

  /** No `.git` directory below the top is ever entered: no reported path
      passes through one. */
  lemma {:induction false} RepoAtAvoidsGit(n: Node, rel: Path)
    requires RepoAt(n, rel)
    ensures forall i | 0 <= i < |rel| :: rel[i] != GitDir
    decreases rel
  {
    if |rel| > 0 {
      var k :| 0 <= k < |n.children| && n.children[k].name == rel[0] && RepoAt(n.children[k], rel[1..]);
      RepoAtAvoidsGit(n.children[k], rel[1..]);
      forall i | 1 <= i < |rel| ensures rel[i] != GitDir {
        assert rel[i] == rel[1..][i - 1];
      }
    }
  }

  lemma FindAvoidsGit(top: Node)
    ensures forall p <- FindGitRepos(top), i | 1 <= i < |p| :: p[i] != GitDir
  {
    forall p <- FindGitRepos(top), i | 1 <= i < |p| ensures p[i] != GitDir {
      FindMeaning(top, p);
      RepoAtAvoidsGit(top, p[1..]);
      assert p[i] == p[1..][i - 1];
    }
  }

  /** On a real file system, each repository is reported once, and before
      the repositories nested inside it. */
  lemma FindOrdered(top: Node)
    requires UniqueNames(top)
    ensures Distinct(FindGitRepos(top)) && TopDown(FindGitRepos(top))
  {
    WalkOrdered(top, [top.name]);
  }
}
