/**
 * `scan_for_repositories`: a walk of the directory tree below a base
 * directory that records every Git working tree it meets, up to a depth
 * limit, without entering hidden directories or descending into a
 * repository it has found.
 *
 * The file system is a finite tree of `Node`s; a directory's children are in
 * the order `iterdir` lists them.
 */
module RepositoryScanner {
  import opened Wrappers
  import opened Paths
  import Lists

  datatype Node =
    | File(name: string)
    | Dir(name: string, children: seq<Node>)

  const GIT_DIR: string := ".git"
  const DEFAULT_MAX_DEPTH: int := 2

  datatype ScanError =
    | NotADirectory(path: Path)   // `iterdir` raised on a base that is a plain file

  /** The names of the subdirectories of `n`. */
  function SubdirectoryNames(n: Node): set<string> {
    if n.File? then {} else set c | c in n.children && c.Dir? :: c.name
  }

  /** `is_git_repository(path)`: the directory has a `.git` subdirectory. */
  predicate IsGitRepository(n: Node)
    ensures IsGitRepository(n) <==> n.Dir? && GIT_DIR in SubdirectoryNames(n)
  {
    n.Dir? && exists i :: 0 <= i < |n.children| && n.children[i].Dir? && n.children[i].name == GIT_DIR
  }

  predicate IsHidden(name: string) {
    |name| > 0 && name[0] == '.'
  }

  /** `child.is_dir() and not child.name.startswith(".")`: the scan enters this child. */
  predicate Entered(c: Node) {
    c.Dir? && !IsHidden(c.name)
  }

  /**
   * What `_scan(directory, depth)` appends: nothing below the depth limit,
   * the directory itself when it is a repository, and otherwise what the
   * scans of its entered children append, child after child.
   */
  function Found(d: Node, p: Path, depth: int, maxDepth: int): (r: seq<Path>)
    requires d.Dir?
    ensures forall q :: q in r ==> Below(p, q)
    decreases d, 1
  {
    if depth > maxDepth then []
    else if IsGitRepository(d) then [p]
    else FoundAmong(d, p, depth + 1, maxDepth, |d.children|)
  }

  /** What the scans of the first `k` children of `d` (at depth `depth`) append. */
  function FoundAmong(d: Node, p: Path, depth: int, maxDepth: int, k: nat): (r: seq<Path>)
    requires d.Dir? && k <= |d.children|
    ensures forall q :: q in r ==> Below(p, q) && |q.parts| > |p.parts|
    decreases d, 0, k
  {
    if k == 0 then []
    else
      var c := d.children[k - 1];
      BelowParent(p, c.name);
      FoundAmong(d, p, depth, maxDepth, k - 1)
        + (if Entered(c) then Found(c, Child(p, c.name), depth, maxDepth) else [])
  }

  /** `q` names `p` itself or something inside it. */
  predicate Below(p: Path, q: Path) {
    q.absolute == p.absolute && |p.parts| <= |q.parts| && q.parts[..|p.parts|] == p.parts
  }

  /**
   * The independent description of a hit: following the names `rel` from `n`
   * (at depth `depth`) goes only through entered directories that are not
   * repositories, stays within the depth limit, and ends at a repository.
   */
  predicate Qualifies(n: Node, rel: seq<string>, depth: int, maxDepth: int)
    decreases |rel|
  {
    n.Dir? && depth <= maxDepth &&
    if rel == [] then IsGitRepository(n)
    else
      !IsGitRepository(n) &&
      exists i :: 0 <= i < |n.children| && n.children[i].name == rel[0] && Entered(n.children[i])
                  && Qualifies(n.children[i], rel[1..], depth + 1, maxDepth)
  }

  /** Whatever lies below `p / name` lies strictly below `p`. */
  lemma BelowParent(p: Path, name: string)
    ensures forall q :: Below(Child(p, name), q) ==> Below(p, q) && |q.parts| > |p.parts|
  {
    forall q | Below(Child(p, name), q)
      ensures Below(p, q) && |q.parts| > |p.parts|
    {
      BelowChild(p, name, q);
    }
  }

  lemma BelowChild(p: Path, name: string, q: Path)
    ensures Below(Child(p, name), q) <==>
              Below(p, q) && |q.parts| > |p.parts| && q.parts[|p.parts|] == name
  {
    if Below(p, q) && |q.parts| > |p.parts| && q.parts[|p.parts|] == name {
      assert q.parts[..|p.parts| + 1] == q.parts[..|p.parts|] + [name];
    }
    if Below(Child(p, name), q) {
      assert q.parts[..|p.parts|] == q.parts[..|p.parts| + 1][..|p.parts|];
    }
  }

  /** `q` is appended by the scans of the first `k` children exactly when it qualifies through one of them. */
  lemma {:induction false} FoundAmongIff(d: Node, p: Path, depth: int, maxDepth: int, k: nat, q: Path)
    requires d.Dir? && k <= |d.children|
    ensures q in FoundAmong(d, p, depth, maxDepth, k) <==>
              Below(p, q) && |q.parts| > |p.parts| &&
              exists i :: 0 <= i < k && d.children[i].name == q.parts[|p.parts|] && Entered(d.children[i])
                          && Qualifies(d.children[i], q.parts[|p.parts| + 1..], depth, maxDepth)
    decreases d, 0, k
  {
    if k > 0 {
      FoundAmongIff(d, p, depth, maxDepth, k - 1, q);
      var c := d.children[k - 1];
      var earlier := FoundAmong(d, p, depth, maxDepth, k - 1);
      var last := if Entered(c) then Found(c, Child(p, c.name), depth, maxDepth) else [];
      assert FoundAmong(d, p, depth, maxDepth, k) == earlier + last;
      assert q in earlier + last <==> q in earlier || q in last;
      if Entered(c) {
        FoundIff(c, Child(p, c.name), depth, maxDepth, q);
        BelowChild(p, c.name, q);
      }
    }
  }

  /**
   * Soundness and completeness of the walk: `q` is found exactly when it lies
   * below the start and the names leading to it qualify.
   */
  lemma {:induction false} FoundIff(d: Node, p: Path, depth: int, maxDepth: int, q: Path)
    requires d.Dir?
    ensures q in Found(d, p, depth, maxDepth) <==> Below(p, q) && Qualifies(d, q.parts[|p.parts|..], depth, maxDepth)
    decreases d, 1
  {
    if depth <= maxDepth && !IsGitRepository(d) {
      FoundAmongIff(d, p, depth + 1, maxDepth, |d.children|, q);
      if Below(p, q) && |q.parts| > |p.parts| {
        var rel := q.parts[|p.parts|..];
        assert rel[0] == q.parts[|p.parts|];
        assert rel[1..] == q.parts[|p.parts| + 1..];
      }
    } else if depth <= maxDepth && Below(p, q) && q.parts[|p.parts|..] == [] {
      assert q.parts == q.parts[..|p.parts|];
    }
  }

  /** A qualifying name sequence stays within the depth limit. */
  lemma {:induction false} QualifiesDepth(n: Node, rel: seq<string>, depth: int, maxDepth: int)
    requires Qualifies(n, rel, depth, maxDepth)
    ensures depth + |rel| <= maxDepth
    decreases |rel|
  {
    if rel != [] {
      var i :| 0 <= i < |n.children| && n.children[i].name == rel[0] && Entered(n.children[i])
                && Qualifies(n.children[i], rel[1..], depth + 1, maxDepth);
      QualifiesDepth(n.children[i], rel[1..], depth + 1, maxDepth);
    }
  }

  /** A qualifying name sequence has no hidden component. */
  lemma {:induction false} QualifiesNotHidden(n: Node, rel: seq<string>, depth: int, maxDepth: int)
    requires Qualifies(n, rel, depth, maxDepth)
    ensures forall k :: 0 <= k < |rel| ==> !IsHidden(rel[k])
    decreases |rel|
  {
    if rel != [] {
      var i :| 0 <= i < |n.children| && n.children[i].name == rel[0] && Entered(n.children[i])
                && Qualifies(n.children[i], rel[1..], depth + 1, maxDepth);
      QualifiesNotHidden(n.children[i], rel[1..], depth + 1, maxDepth);
      forall k | 1 <= k < |rel|
        ensures !IsHidden(rel[k])
      {
        assert rel[k] == rel[1..][k - 1];
      }
    }
  }

  /** Following the names `rel` from `n`, one matching child at a time, arrives at `m`. */
  predicate Reaches(n: Node, rel: seq<string>, m: Node)
    decreases |rel|
  {
    if rel == [] then m == n
    else n.Dir? && exists i :: 0 <= i < |n.children| && n.children[i].name == rel[0]
                               && Reaches(n.children[i], rel[1..], m)
  }

  /** A qualifying name sequence leads to a directory that holds a `.git` directory. */
  lemma {:induction false} QualifiesEndsAtRepository(n: Node, rel: seq<string>, depth: int, maxDepth: int)
    returns (m: Node)
    requires Qualifies(n, rel, depth, maxDepth)
    ensures Reaches(n, rel, m) && IsGitRepository(m)
    decreases |rel|
  {
    if rel == [] {
      m := n;
    } else {
      var i :| 0 <= i < |n.children| && n.children[i].name == rel[0] && Entered(n.children[i])
                && Qualifies(n.children[i], rel[1..], depth + 1, maxDepth);
      m := QualifiesEndsAtRepository(n.children[i], rel[1..], depth + 1, maxDepth);
    }
  }

  /** Every directory found is a Git repository: it has a `.git` subdirectory. */
  lemma FoundIsRepository(d: Node, p: Path, depth: int, maxDepth: int, q: Path)
    requires d.Dir? && q in Found(d, p, depth, maxDepth)
    ensures Below(p, q) && exists m :: Reaches(d, q.parts[|p.parts|..], m) && IsGitRepository(m)
  {
    FoundIff(d, p, depth, maxDepth, q);
    var m := QualifiesEndsAtRepository(d, q.parts[|p.parts|..], depth, maxDepth);
  }

  /** Every directory found lies at most `maxDepth - depth` levels below the start. */
  lemma FoundWithinDepth(d: Node, p: Path, depth: int, maxDepth: int, q: Path)
    requires d.Dir? && q in Found(d, p, depth, maxDepth)
    ensures Below(p, q) && depth + (|q.parts| - |p.parts|) <= maxDepth
  {
    FoundIff(d, p, depth, maxDepth, q);
    QualifiesDepth(d, q.parts[|p.parts|..], depth, maxDepth);
  }

  /** No directory found has a hidden component below the start. */
  lemma FoundNotHidden(d: Node, p: Path, depth: int, maxDepth: int, q: Path)
    requires d.Dir? && q in Found(d, p, depth, maxDepth)
    ensures forall k :: |p.parts| <= k < |q.parts| ==> !IsHidden(q.parts[k])
  {
    FoundIff(d, p, depth, maxDepth, q);
    var rel := q.parts[|p.parts|..];
    QualifiesNotHidden(d, rel, depth, maxDepth);
    forall k | |p.parts| <= k < |q.parts|
      ensures !IsHidden(q.parts[k])
    {
      assert q.parts[k] == rel[k - |p.parts|];
    }
  }

  /** No two children of a directory share a name, at every level. */
  predicate WellFormedTree(n: Node)
    decreases n
  {
    n.Dir? ==>
      (forall i, j :: 0 <= i < j < |n.children| ==> n.children[i].name != n.children[j].name)
      && (forall i :: 0 <= i < |n.children| ==> WellFormedTree(n.children[i]))
  }

  /** Of two qualifying name sequences, neither extends the other. */
  lemma {:induction false} QualifiesNotNested(n: Node, r1: seq<string>, r2: seq<string>, depth: int, maxDepth: int)
    requires WellFormedTree(n)
    requires Qualifies(n, r1, depth, maxDepth) && Qualifies(n, r2, depth, maxDepth)
    requires r1 <= r2
    ensures r1 == r2
    decreases |r1|
  {
    if r1 != [] {
      var i :| 0 <= i < |n.children| && n.children[i].name == r1[0] && Entered(n.children[i])
                && Qualifies(n.children[i], r1[1..], depth + 1, maxDepth);
      var j :| 0 <= j < |n.children| && n.children[j].name == r2[0] && Entered(n.children[j])
                && Qualifies(n.children[j], r2[1..], depth + 1, maxDepth);
      assert i == j;
      QualifiesNotNested(n.children[i], r1[1..], r2[1..], depth + 1, maxDepth);
      assert r1 == [r1[0]] + r1[1..];
      assert r2 == [r2[0]] + r2[1..];
    }
  }

  /** The scan never reports a directory inside another reported one. */
  lemma FoundNotNested(d: Node, p: Path, depth: int, maxDepth: int, q1: Path, q2: Path)
    requires d.Dir? && WellFormedTree(d)
    requires q1 in Found(d, p, depth, maxDepth) && q2 in Found(d, p, depth, maxDepth)
    requires Below(q1, q2)
    ensures q1 == q2
  {
    FoundIff(d, p, depth, maxDepth, q1);
    FoundIff(d, p, depth, maxDepth, q2);
    var r1, r2 := q1.parts[|p.parts|..], q2.parts[|p.parts|..];
    assert r1 <= r2 by {
      assert q2.parts[..|q1.parts|] == q1.parts;
      assert r2[..|r1|] == q2.parts[|p.parts|..|q1.parts|];
    }
    QualifiesNotNested(d, r1, r2, depth, maxDepth);
    assert q1.parts == q1.parts[..|p.parts|] + r1;
    assert q2.parts == q2.parts[..|p.parts|] + r2;
  }

  /** In a tree without duplicate names, no directory is reported twice. */
  lemma {:induction false} FoundNoDuplicates(d: Node, p: Path, depth: int, maxDepth: int)
    requires d.Dir? && WellFormedTree(d)
    ensures Lists.NoDuplicates(Found(d, p, depth, maxDepth))
    decreases d, 1
  {
    if depth <= maxDepth && !IsGitRepository(d) {
      FoundAmongNoDuplicates(d, p, depth + 1, maxDepth, |d.children|);
    }
  }

  lemma {:induction false} FoundAmongNoDuplicates(d: Node, p: Path, depth: int, maxDepth: int, k: nat)
    requires d.Dir? && WellFormedTree(d) && k <= |d.children|
    ensures Lists.NoDuplicates(FoundAmong(d, p, depth, maxDepth, k))
    decreases d, 0, k
  {
    if k > 0 {
      var c := d.children[k - 1];
      var a := FoundAmong(d, p, depth, maxDepth, k - 1);
      FoundAmongNoDuplicates(d, p, depth, maxDepth, k - 1);
      if Entered(c) {
        var b := Found(c, Child(p, c.name), depth, maxDepth);
        FoundNoDuplicates(c, Child(p, c.name), depth, maxDepth);
        forall q | q in a
          ensures q !in b
        {
          FoundAmongIff(d, p, depth, maxDepth, k - 1, q);
          FoundIff(c, Child(p, c.name), depth, maxDepth, q);
          BelowChild(p, c.name, q);
        }
        Lists.NoDuplicatesAppend(a, b);
      } else {
        assert FoundAmong(d, p, depth, maxDepth, k) == a + [];
        assert a + [] == a;
      }
    }
  }

  /**
   * The scan reports in `iterdir` order: of two results, the one found
   * through child `a` of `d` comes before the one found through child `b`
   * only when `a` does not come after `b`.
   */
  lemma FoundInChildOrder(d: Node, p: Path, depth: int, maxDepth: int, i: nat, j: nat, a: nat, b: nat)
    requires d.Dir? && WellFormedTree(d)
    requires i < j < |Found(d, p, depth, maxDepth)|
    requires a < |d.children| && |Found(d, p, depth, maxDepth)[i].parts| > |p.parts|
             && d.children[a].name == Found(d, p, depth, maxDepth)[i].parts[|p.parts|]
    requires b < |d.children| && |Found(d, p, depth, maxDepth)[j].parts| > |p.parts|
             && d.children[b].name == Found(d, p, depth, maxDepth)[j].parts[|p.parts|]
    ensures a <= b
  {
    if depth <= maxDepth && !IsGitRepository(d) {
      FoundAmongInChildOrder(d, p, depth + 1, maxDepth, |d.children|, i, j, a, b);
    } else {
      assert false;
    }
  }

  /** The results the first `k` children contribute, in the order of those children. */
  lemma {:induction false} FoundAmongInChildOrder(d: Node, p: Path, depth: int, maxDepth: int, k: nat,
                                                  i: nat, j: nat, a: nat, b: nat)
    requires d.Dir? && WellFormedTree(d) && k <= |d.children|
    requires i < j < |FoundAmong(d, p, depth, maxDepth, k)|
    requires a < k && d.children[a].name == FoundAmong(d, p, depth, maxDepth, k)[i].parts[|p.parts|]
    requires b < k && d.children[b].name == FoundAmong(d, p, depth, maxDepth, k)[j].parts[|p.parts|]
    ensures a <= b
    decreases k
  {
    var c := d.children[k - 1];
    var earlier := FoundAmong(d, p, depth, maxDepth, k - 1);
    var last := if Entered(c) then Found(c, Child(p, c.name), depth, maxDepth) else [];
    var r := FoundAmong(d, p, depth, maxDepth, k);
    assert r == earlier + last;
    if j < |earlier| {
      ThroughEarlierChild(d, p, depth, maxDepth, k - 1, i, a);
      ThroughEarlierChild(d, p, depth, maxDepth, k - 1, j, b);
      FoundAmongInChildOrder(d, p, depth, maxDepth, k - 1, i, j, a, b);
    } else {
      assert r[j] in last;
      BelowChild(p, c.name, r[j]);
      assert b == k - 1;
    }
  }

  /** A result among the first `k` children's was found through one of them. */
  lemma ThroughEarlierChild(d: Node, p: Path, depth: int, maxDepth: int, k: nat, i: nat, a: nat)
    requires d.Dir? && WellFormedTree(d) && k < |d.children|
    requires i < |FoundAmong(d, p, depth, maxDepth, k)|
    requires a <= k && d.children[a].name == FoundAmong(d, p, depth, maxDepth, k)[i].parts[|p.parts|]
    ensures a < k
  {
    var q := FoundAmong(d, p, depth, maxDepth, k)[i];
    FoundAmongIff(d, p, depth, maxDepth, k, q);
    var x :| 0 <= x < k && d.children[x].name == q.parts[|p.parts|];
    assert a == x;
  }

  /**
   * `n` with the contents of every directory `levels` levels down erased: the
   * directories at that level keep their names but lose their entries.
   */
  function Prune(n: Node, levels: nat): (r: Node)
    ensures r.name == n.name && r.Dir? == n.Dir?
    decreases n
  {
    match n
    case File(_) => n
    case Dir(name, children) =>
      if levels == 0 then Dir(name, [])
      else Dir(name, seq(|children|, i requires 0 <= i < |children| => Prune(children[i], levels - 1)))
  }

  /**
   * The walk never looks inside a directory deeper than `maxDepth`: erasing
   * the contents of every directory at depth `maxDepth + 1` changes nothing.
   */
  lemma {:induction false} FoundPruned(d: Node, p: Path, depth: int, maxDepth: int)
    requires d.Dir? && depth <= maxDepth + 1
    ensures Found(Prune(d, maxDepth + 1 - depth), p, depth, maxDepth) == Found(d, p, depth, maxDepth)
    decreases d, 1
  {
    if depth <= maxDepth {
      var pd := Prune(d, maxDepth + 1 - depth);
      assert |pd.children| == |d.children|;
      assert forall i :: 0 <= i < |d.children| ==> pd.children[i] == Prune(d.children[i], maxDepth - depth);
      assert IsGitRepository(pd) <==> IsGitRepository(d) by {
        if IsGitRepository(d) {
          var i :| 0 <= i < |d.children| && d.children[i].Dir? && d.children[i].name == GIT_DIR;
          assert pd.children[i].Dir? && pd.children[i].name == GIT_DIR;
        }
        if IsGitRepository(pd) {
          var i :| 0 <= i < |pd.children| && pd.children[i].Dir? && pd.children[i].name == GIT_DIR;
          assert d.children[i].Dir? && d.children[i].name == GIT_DIR;
        }
      }
      if !IsGitRepository(d) {
        FoundAmongPruned(d, p, depth + 1, maxDepth, |d.children|);
      }
    }
  }

  lemma {:induction false} FoundAmongPruned(d: Node, p: Path, depth: int, maxDepth: int, k: nat)
    requires d.Dir? && k <= |d.children| && depth <= maxDepth + 1
    ensures FoundAmong(Prune(d, maxDepth + 2 - depth), p, depth, maxDepth, k) == FoundAmong(d, p, depth, maxDepth, k)
    decreases d, 0, k
  {
    if k > 0 {
      var pd := Prune(d, maxDepth + 2 - depth);
      var c := d.children[k - 1];
      assert pd.children[k - 1] == Prune(c, maxDepth + 1 - depth);
      FoundAmongPruned(d, p, depth, maxDepth, k - 1);
      if Entered(c) {
        FoundPruned(c, Child(p, c.name), depth, maxDepth);
      }
    }
  }

  /** `scan_for_repositories(base, max_depth)` given what exists at `base` and what `resolve()` makes of it. */
  function Scan(entry: Option<Node>, base: Path, resolve: Path -> Path, maxDepth: int): (r: Result<seq<Path>, ScanError>)
    ensures entry.None? ==> r == Success([])
    ensures r.Failure? <==> entry.Some? && !entry.value.Dir? && maxDepth >= 0
    ensures r.Success? ==> forall q :: q in r.value ==> Below(resolve(base), q)
  {
    match entry
    case None => Success([])
    case Some(n) =>
      if n.Dir? then Success(Found(n, resolve(base), 0, maxDepth))
      else if 0 > maxDepth then Success([])
      else Failure(NotADirectory(resolve(base)))
  }

  /** A base directory that does not exist yields no repositories. */
  lemma ScanMissing(base: Path, resolve: Path -> Path, maxDepth: int)
    ensures Scan(None, base, resolve, maxDepth) == Success([])
  {
  }

  /** A base directory that is itself a repository is the only result. */
  lemma ScanRepositoryBase(d: Node, base: Path, resolve: Path -> Path, maxDepth: int)
    requires IsGitRepository(d) && maxDepth >= 0
    ensures Scan(Some(d), base, resolve, maxDepth) == Success([resolve(base)])
  {
  }

  /**
   * Every result of a scan is a repository below the resolved base, reached
   * through entered non-repository directories, within the depth limit; and
   * every such directory is a result.
   */
  lemma ScanIff(d: Node, base: Path, resolve: Path -> Path, maxDepth: int, q: Path)
    requires d.Dir?
    ensures Scan(Some(d), base, resolve, maxDepth).Success?
    ensures q in Scan(Some(d), base, resolve, maxDepth).value <==>
              Below(resolve(base), q) && Qualifies(d, q.parts[|resolve(base).parts|..], 0, maxDepth)
  {
    FoundIff(d, resolve(base), 0, maxDepth, q);
  }

  /** `_scan`: appends to `found` what the walk from `directory` discovers. */
  method ScanDir(directory: Node, path: Path, depth: int, maxDepth: int, found: seq<Path>)
    returns (found': seq<Path>)
    requires directory.Dir?
    ensures found' == found + Found(directory, path, depth, maxDepth)
    decreases directory
  {
    if depth > maxDepth {
      return found;
    }
    if IsGitRepository(directory) {
      return found + [path];
    }
    found' := found;
    var i := 0;
    while i < |directory.children|
      invariant 0 <= i <= |directory.children|
      invariant found' == found + FoundAmong(directory, path, depth + 1, maxDepth, i)
    {
      var child := directory.children[i];
      if child.Dir? && !IsHidden(child.name) {
        found' := ScanDir(child, Child(path, child.name), depth + 1, maxDepth, found');
      }
      i := i + 1;
    }
  }

  /** `scan_for_repositories(base_directory, max_depth)`. */
  method ScanForRepositories(entry: Option<Node>, base: Path, resolve: Path -> Path, maxDepth: int)
    returns (r: Result<seq<Path>, ScanError>)
    ensures r == Scan(entry, base, resolve, maxDepth)
  {
    if entry.None? {
      return Success([]);
    }
    var directory := entry.value;
    var start := resolve(base);
    if 0 > maxDepth {
      return Success([]);
    }
    if !directory.Dir? {
      return Failure(NotADirectory(start));
    }
    var found := ScanDir(directory, start, 0, maxDepth, []);
    assert [] + Found(directory, start, 0, maxDepth) == Found(directory, start, 0, maxDepth);
    return Success(found);
  }
}
