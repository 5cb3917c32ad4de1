/**
 * `_collect_repositories`: the repository list the application starts with.
 * The stored list comes first; when a base directory is configured, the
 * repositories found below it follow, every path is resolved, and each
 * resolved path is kept at its first occurrence only.
 */
module Startup {
  import opened Wrappers
  import opened Paths
  import opened ConfigManager
  import opened Preferences
  import opened RepositoryScanner
  import Lists

  datatype CollectError =
    | StoredFailed(stored: StoredError)   // building the stored list raised
    | ScanFailed(scan: ScanError)         // `scan_for_repositories` raised

  /** `[p.resolve() for p in items]`. */
  function ResolveAll(items: seq<Path>, resolve: Path -> Path): (r: seq<Path>)
    ensures |r| == |items|
    ensures forall i :: 0 <= i < |items| ==> r[i] == resolve(items[i])
  {
    seq(|items|, i requires 0 <= i < |items| => resolve(items[i]))
  }

  /** What the `seen`/`merged` loop leaves in `merged` after visiting `items`. */
  function Merge(items: seq<Path>, resolve: Path -> Path): (r: seq<Path>)
    ensures Lists.NoDuplicates(r)
  {
    Lists.Dedup(ResolveAll(items, resolve))
  }

  /** The result of `_collect_repositories(config)`. */
  function Collected(config: AppConfig, entry: Option<Node>, resolve: Path -> Path): (r: Result<seq<Path>, CollectError>)
    ensures StoredPaths(config.preferences).Failure? ==> r.Failure? && r.error.StoredFailed?
    ensures config.baseDirectory == "" && StoredPaths(config.preferences).Success? ==>
              r == Success(StoredPaths(config.preferences).value)
    ensures config.baseDirectory != "" && r.Success? ==> Lists.NoDuplicates(r.value)
  {
    match StoredPaths(config.preferences)
    case Failure(e) => Failure(StoredFailed(e))
    case Success(stored) =>
      if config.baseDirectory == "" then Success(stored)
      else
        match Scan(entry, Parse(config.baseDirectory), resolve, DEFAULT_MAX_DEPTH)
        case Failure(e) => Failure(ScanFailed(e))
        case Success(scanned) => Success(Merge(stored + scanned, resolve))
  }

  /** One more item: its resolved path is appended exactly when it is not yet in the list. */
  lemma MergeSnoc(items: seq<Path>, x: Path, resolve: Path -> Path)
    ensures Merge(items + [x], resolve) ==
              if resolve(x) in Merge(items, resolve) then Merge(items, resolve)
              else Merge(items, resolve) + [resolve(x)]
  {
    var s := ResolveAll(items, resolve);
    assert ResolveAll(items + [x], resolve) == s + [resolve(x)];
    Lists.DedupSnoc(s, resolve(x));
    Lists.DedupMember(s, resolve(x));
  }

  /** A path is in the merged list exactly when it is the resolution of some input. */
  lemma MergeMember(items: seq<Path>, resolve: Path -> Path, q: Path)
    ensures q in Merge(items, resolve) <==> exists i :: 0 <= i < |items| && resolve(items[i]) == q
  {
    var s := ResolveAll(items, resolve);
    Lists.DedupMember(s, q);
    if q in s {
      var i :| 0 <= i < |s| && s[i] == q;
      assert resolve(items[i]) == q;
    }
  }

  /**
   * The stored entries come first, in their own order of first occurrence;
   * then the scanned entries not among them, in scan order.
   */
  lemma MergeStoredFirst(stored: seq<Path>, scanned: seq<Path>, resolve: Path -> Path)
    ensures Merge(stored + scanned, resolve) ==
              Merge(stored, resolve) + Lists.Dedup(Lists.Without(ResolveAll(scanned, resolve), ResolveAll(stored, resolve)))
  {
    var a, b := ResolveAll(stored, resolve), ResolveAll(scanned, resolve);
    assert ResolveAll(stored + scanned, resolve) == a + b;
    Lists.DedupAppend(a, b);
  }

  /** The merged list is ordered by the position where each path first occurs once resolved. */
  lemma MergeOrder(items: seq<Path>, resolve: Path -> Path)
    ensures forall i, j :: 0 <= i < j < |Merge(items, resolve)| ==>
              Lists.IndexOf(ResolveAll(items, resolve), Merge(items, resolve)[i])
                < Lists.IndexOf(ResolveAll(items, resolve), Merge(items, resolve)[j])
  {
    Lists.DedupOrder(ResolveAll(items, resolve));
  }

  /** The merged list has one entry per distinct resolved input. */
  lemma MergeLength(items: seq<Path>, resolve: Path -> Path)
    ensures |Merge(items, resolve)| == |Lists.Elements(ResolveAll(items, resolve))|
  {
    Lists.DedupLength(ResolveAll(items, resolve));
  }

  /** Inputs already resolved and free of duplicates come out unchanged. */
  lemma MergeFixpoint(items: seq<Path>, resolve: Path -> Path)
    requires Lists.NoDuplicates(items)
    requires forall i :: 0 <= i < |items| ==> resolve(items[i]) == items[i]
    ensures Merge(items, resolve) == items
  {
    assert ResolveAll(items, resolve) == items;
    Lists.DedupOfDistinct(items);
  }

  /** With an idempotent `resolve`, merging a merged list changes nothing. */
  lemma MergeIdempotent(items: seq<Path>, resolve: Path -> Path)
    requires forall p :: resolve(resolve(p)) == resolve(p)
    ensures Merge(Merge(items, resolve), resolve) == Merge(items, resolve)
  {
    var m := Merge(items, resolve);
    forall i | 0 <= i < |m|
      ensures resolve(m[i]) == m[i]
    {
      MergeMember(items, resolve, m[i]);
    }
    MergeFixpoint(m, resolve);
  }

  /** Without a base directory, the list written by the window is the list the next start-up begins with. */
  lemma StartupAfterPersist(c: AppConfig, repos: seq<Path>, entry: Option<Node>, resolve: Path -> Path)
    requires c.baseDirectory == ""
    requires forall i :: 0 <= i < |repos| ==> WellFormed(repos[i])
    ensures Collected(WithRepositories(c, repos), entry, resolve) == Success(repos)
  {
    StoredPathsOfWritten(c, repos);
  }

  /**
   * With a base directory, a written list of resolved, distinct paths is the
   * front of the next start-up's list, unchanged.
   */
  lemma StartupKeepsWrittenFirst(c: AppConfig, repos: seq<Path>, entry: Option<Node>, resolve: Path -> Path)
    requires c.baseDirectory != ""
    requires forall i :: 0 <= i < |repos| ==> WellFormed(repos[i]) && resolve(repos[i]) == repos[i]
    requires Lists.NoDuplicates(repos)
    requires Scan(entry, Parse(c.baseDirectory), resolve, DEFAULT_MAX_DEPTH).Success?
    ensures Collected(WithRepositories(c, repos), entry, resolve).Success?
    ensures |repos| <= |Collected(WithRepositories(c, repos), entry, resolve).value|
    ensures Collected(WithRepositories(c, repos), entry, resolve).value[..|repos|] == repos
  {
    StoredPathsOfWritten(c, repos);
    var scanned := Scan(entry, Parse(c.baseDirectory), resolve, DEFAULT_MAX_DEPTH).value;
    MergeStoredFirst(repos, scanned, resolve);
    MergeFixpoint(repos, resolve);
  }

  /** The loop of `_collect_repositories`: resolve each path, keep it when it is not yet `seen`. */
  method MergeRepositories(items: seq<Path>, resolve: Path -> Path) returns (merged: seq<Path>)
    ensures merged == Merge(items, resolve)
  {
    var seen: set<Path> := {};
    merged := [];
    for i := 0 to |items|
      invariant merged == Merge(items[..i], resolve)
      invariant seen == Lists.Elements(merged)
    {
      var repo := resolve(items[i]);
      MergeSnoc(items[..i], items[i], resolve);
      assert items[..i + 1] == items[..i] + [items[i]];
      Lists.ElementsSnoc(merged, repo);
      if repo !in seen {
        merged := merged + [repo];
        seen := seen + {repo};
      }
    }
    assert items[..|items|] == items;
  }

  /** `_collect_repositories(config)`. */
  method CollectRepositories(config: AppConfig, entry: Option<Node>, resolve: Path -> Path)
    returns (r: Result<seq<Path>, CollectError>)
    ensures r == Collected(config, entry, resolve)
  {
    var storedOrError := StoredPaths(config.preferences);
    if storedOrError.Failure? {
      return Failure(StoredFailed(storedOrError.error));
    }
    var stored := storedOrError.value;
    if config.baseDirectory == "" {
      return Success(stored);
    }
    var scannedOrError := ScanForRepositories(entry, Parse(config.baseDirectory), resolve, DEFAULT_MAX_DEPTH);
    if scannedOrError.Failure? {
      return Failure(ScanFailed(scannedOrError.error));
    }
    var merged := MergeRepositories(stored + scannedOrError.value, resolve);
    return Success(merged);
  }
}
