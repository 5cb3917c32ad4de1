/**
 * The top-level `main.py` entry point carries its own copy of
 * `_collect_repositories`, line for line the same as the packaged one.
 */
module LegacyStartup {
  import opened Wrappers
  import opened Paths
  import opened ConfigManager
  import opened RepositoryScanner
  import Startup

  /** `_collect_repositories(config)` of `main.py`: the same result as the packaged copy. */
  method CollectRepositories(config: AppConfig, entry: Option<Node>, resolve: Path -> Path)
    returns (r: Result<seq<Path>, Startup.CollectError>)
    ensures r == Startup.Collected(config, entry, resolve)
  {
    r := Startup.CollectRepositories(config, entry, resolve);
  }
}
