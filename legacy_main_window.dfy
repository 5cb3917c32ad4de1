/**
 * The repository list of the older top-level main window
 * (`ui/main_window.py`), which can only add entries and write the list back.
 */
module LegacyWindow {
  import opened Wrappers
  import opened Paths
  import opened ConfigManager
  import opened Preferences
  import Lists

  class MainWindow {
    var config: AppConfig
    var repos: seq<Path>
    /** The configuration as `save_config` last wrote it. */
    ghost var persisted: AppConfig

    /**
     * `MainWindow(config, repos)`; start-up saves `config` just before it
     * builds the window, so the saved configuration is `config`.
     */
    constructor (config: AppConfig, repos: seq<Path>)
      ensures this.config == config && this.repos == repos && persisted == config
    {
      this.config := config;
      this.repos := repos;
      persisted := config;
    }

    /** `_persist_repositories`: write the list into the preferences, then save. */
    method PersistRepositories()
      modifies this
      ensures repos == old(repos)
      ensures config == WithRepositories(old(config), repos)
      ensures persisted == config
    {
      config := WithRepositories(config, repos);
      persisted := config;
    }

    /**
     * `_on_add_repo` with the dialog's answer `directory` ("" when cancelled):
     * a new path goes to the end of the list and its row is selected; a
     * cancelled dialog or a path already listed changes nothing and saves
     * nothing.
     */
    method Add(directory: string) returns (row: Option<nat>)
      modifies this
      ensures directory == "" || Parse(directory) in old(repos) ==>
                repos == old(repos) && config == old(config) && persisted == old(persisted) && row == None
      ensures directory != "" && Parse(directory) !in old(repos) ==>
                repos == old(repos) + [Parse(directory)] && row == Some(|old(repos)|)
                && config == WithRepositories(old(config), repos) && persisted == config
    {
      if directory == "" {
        return None;
      }
      var path := Parse(directory);
      row := None;
      if path !in repos {
        Lists.IndexOfLast(repos, path);
        repos := repos + [path];
        row := Some(Lists.IndexOf(repos, path));
        PersistRepositories();
      }
    }
  }
}
