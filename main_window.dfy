/**
 * The repository list of the packaged main window (`gitboss/ui/main_window.py`):
 * adding, removing and rescanning entries, writing the list back to the
 * configuration, and the text filter over the listed entries. The widgets are
 * not modelled: the directory chosen in the dialog, the selected entry's path
 * text and the filter text are parameters, and the list widget always shows
 * `repos` in order, one row per entry, labelled `str(repo)`.
 */
module GitbossWindow {
  import opened Wrappers
  import opened Paths
  import opened Strings
  import opened ConfigManager
  import opened Preferences
  import opened RepositoryScanner
  import Lists

  /**
   * Whether the filter hides an entry: the lower-cased, stripped query does
   * not occur in its lower-cased text. A query that strips to nothing hides
   * nothing.
   */
  predicate HiddenBy(repo: Path, text: string)
    ensures Strip(Lower(text)) == "" ==> !HiddenBy(repo, text)
  {
    ContainsEmpty(Lower(Text(repo)));
    !Contains(Lower(Text(repo)), Strip(Lower(text)))
  }

  /** `Path(item.data(Qt.UserRole))` for the row showing `repos[row]`: its text parsed again. */
  function SelectedPath(repos: seq<Path>, row: nat): Path
    requires row < |repos|
  {
    Parse(Text(repos[row]))
  }

  class MainWindow {
    var config: AppConfig
    var repos: seq<Path>
    /** The configuration as `save_config` last wrote it. */
    ghost var persisted: AppConfig

    /**
     * `MainWindow(config, repos)`; start-up saves `config` just before it
     * builds the window, so the saved configuration is `config`.
     */
    constructor (config: AppConfig, repos: seq<Path>)
      ensures this.config == config && this.repos == repos && persisted == config
    {
      this.config := config;
      this.repos := repos;
      persisted := config;
    }

    /** `_persist_repositories`: write the list into the preferences, then save. */
    method PersistRepositories()
      modifies this
      ensures repos == old(repos)
      ensures config == WithRepositories(old(config), repos)
      ensures persisted == config
    {
      config := WithRepositories(config, repos);
      persisted := config;
    }

    /**
     * `_on_add_repo` with the dialog's answer `directory` ("" when cancelled):
     * a new path goes to the end of the list and its row is selected; a
     * cancelled dialog or a path already listed changes nothing.
     */
    method Add(directory: string) returns (row: Option<nat>)
      modifies this
      ensures directory == "" || Parse(directory) in old(repos) ==>
                repos == old(repos) && config == old(config) && persisted == old(persisted) && row == None
      ensures directory != "" && Parse(directory) !in old(repos) ==>
                repos == old(repos) + [Parse(directory)] && row == Some(|old(repos)|)
                && config == WithRepositories(old(config), repos) && persisted == config
    {
      if directory == "" {
        return None;
      }
      var path := Parse(directory);
      row := None;
      if path !in repos {
        Lists.IndexOfLast(repos, path);
        repos := repos + [path];
        row := Some(Lists.IndexOf(repos, path));
        PersistRepositories();
      }
    }

    /**
     * `_on_remove_repo` with the selected row (`None` when no row is
     * selected). The row's stored text `str(repo)` is parsed back into a path,
     * and the first entry equal to that path is removed; when no entry equals
     * it, or no row is selected, nothing changes.
     */
    method Remove(selected: Option<nat>)
      requires selected.Some? ==> selected.value < |repos|
      modifies this
      ensures selected.None? || SelectedPath(old(repos), selected.value) !in old(repos) ==>
                repos == old(repos) && config == old(config) && persisted == old(persisted)
      ensures selected.Some? && SelectedPath(old(repos), selected.value) in old(repos) ==>
                repos == Lists.RemoveFirst(old(repos), SelectedPath(old(repos), selected.value))
                && config == WithRepositories(old(config), repos) && persisted == config
    {
      if selected.None? {
        return;
      }
      var path := Parse(Text(repos[selected.value]));
      if path in repos {
        repos := Lists.RemoveFirst(repos, path);
        PersistRepositories();
      }
    }

    /**
     * `_on_rescan_repositories`, given what exists at the base directory: the
     * current list followed by the scan's results, each path kept at its first
     * occurrence. Without a base directory nothing changes; a scan that raises
     * changes nothing and is reported.
     */
    method Rescan(entry: Option<Node>, resolve: Path -> Path) returns (error: Option<ScanError>)
      modifies this
      ensures config.baseDirectory == old(config.baseDirectory)
      ensures old(config.baseDirectory) == "" ==>
                error == None && repos == old(repos) && config == old(config) && persisted == old(persisted)
      ensures old(config.baseDirectory) != "" ==>
                var scan := Scan(entry, Parse(old(config.baseDirectory)), resolve, DEFAULT_MAX_DEPTH);
                if scan.Failure? then
                  error == Some(scan.error) && repos == old(repos) && config == old(config) && persisted == old(persisted)
                else
                  error == None && repos == Lists.Dedup(old(repos) + scan.value)
                  && config == WithRepositories(old(config), repos) && persisted == config
    {
      if config.baseDirectory == "" {
        return None;
      }
      var scanned := ScanForRepositories(entry, Parse(config.baseDirectory), resolve, DEFAULT_MAX_DEPTH);
      if scanned.Failure? {
        return Some(scanned.error);
      }
      repos := Lists.Dedup(repos + scanned.value);
      PersistRepositories();
      error := None;
    }

    /** `_filter_repositories(text)`: the hidden flag it sets on each row, in row order. */
    method FilterRepositories(text: string) returns (hidden: seq<bool>)
      ensures |hidden| == |repos|
      ensures forall i :: 0 <= i < |repos| ==> (hidden[i] <==> HiddenBy(repos[i], text))
    {
      var query := Strip(Lower(text));
      hidden := SetHiddenFlags(query);
    }

    /** The loop of `_filter_repositories`: a row is hidden when `query` does not occur in its lower-cased text. */
    method SetHiddenFlags(query: string) returns (hidden: seq<bool>)
      ensures |hidden| == |repos|
      ensures forall i :: 0 <= i < |repos| ==> hidden[i] == !Contains(Lower(Text(repos[i])), query)
    {
      hidden := [];
      for index := 0 to |repos|
        invariant |hidden| == index
        invariant forall i :: 0 <= i < index ==> hidden[i] == !Contains(Lower(Text(repos[i])), query)
      {
        hidden := hidden + [!Contains(Lower(Text(repos[index])), query)];
      }
    }
  }

  /**
   * Adding a path that was not listed selects its new row; removing the
   * selected row then gives back the list as it was.
   */
  lemma AddThenRemove(repos: seq<Path>, directory: string)
    requires directory != "" && Parse(directory) !in repos
    ensures SelectedPath(repos + [Parse(directory)], |repos|) == Parse(directory)
    ensures Lists.RemoveFirst(repos + [Parse(directory)], Parse(directory)) == repos
  {
    ParseWellFormed(directory);
    ParseText(Parse(directory));
    Lists.RemoveAppended(repos, Parse(directory));
  }

  /**
   * In a list without duplicates whose entries are well formed, removing the
   * selected row deletes exactly that row and leaves no duplicates.
   */
  lemma RemoveSelectedRow(repos: seq<Path>, row: nat)
    requires row < |repos| && WellFormed(repos[row])
    requires Lists.NoDuplicates(repos)
    ensures SelectedPath(repos, row) == repos[row]
    ensures Lists.RemoveFirst(repos, repos[row]) == repos[..row] + repos[row + 1..]
    ensures Lists.NoDuplicates(Lists.RemoveFirst(repos, repos[row]))
    ensures repos[row] !in Lists.RemoveFirst(repos, repos[row])
  {
    ParseText(repos[row]);
    Lists.IndexOfDistinct(repos, row);
    Lists.RemoveFirstAt(repos, repos[row]);
    Lists.RemoveFromDistinct(repos, repos[row]);
  }

  /**
   * A rescan keeps a duplicate-free list in front, unchanged, and appends the
   * scanned paths it did not hold, in scan order, each once.
   */
  lemma RescanAppendsNew(repos: seq<Path>, scanned: seq<Path>)
    requires Lists.NoDuplicates(repos)
    ensures Lists.Dedup(repos + scanned) == repos + Lists.Dedup(Lists.Without(scanned, repos))
  {
    Lists.DedupAppend(repos, scanned);
    Lists.DedupOfDistinct(repos);
  }

  /** Rescanning again with the same scan result changes nothing more. */
  lemma RescanIdempotent(repos: seq<Path>, scanned: seq<Path>)
    ensures Lists.Dedup(Lists.Dedup(repos + scanned) + scanned) == Lists.Dedup(repos + scanned)
  {
    var d := Lists.Dedup(repos + scanned);
    forall x | x in scanned
      ensures x in d
    {
      Lists.DedupMember(repos + scanned, x);
    }
    Lists.DedupAbsorbs(d, scanned);
    Lists.DedupIdempotent(repos + scanned);
  }

  /** A query of only whitespace, the empty query included, hides no entry. */
  lemma BlankQueryHidesNothing(repo: Path, text: string)
    requires forall k :: 0 <= k < |text| ==> IsSpace(text[k])
    ensures !HiddenBy(repo, text)
  {
    assert forall k :: 0 <= k < |text| ==> Lower(text)[k] == text[k];
    StripBlank(Lower(text));
    ContainsEmpty(Lower(Text(repo)));
  }

  /** The filter ignores the case of the query. */
  lemma FilterIgnoresQueryCase(repo: Path, text: string)
    ensures HiddenBy(repo, Lower(text)) == HiddenBy(repo, text)
  {
    LowerIdempotent(text);
  }

  /** An entry is shown exactly when the stripped, lower-cased query occurs in its lower-cased text at some offset. */
  lemma ShownIffOccurs(repo: Path, text: string)
    ensures !HiddenBy(repo, text) <==> exists i :: OccursAt(Lower(Text(repo)), Strip(Lower(text)), i)
  {
    ContainsIff(Lower(Text(repo)), Strip(Lower(text)));
  }

  /** An entry a query shows is shown by every query whose stripped, lower-cased text occurs inside that query's. */
  lemma ShownForSubQuery(repo: Path, narrow: string, wide: string)
    requires !HiddenBy(repo, wide)
    requires Contains(Strip(Lower(wide)), Strip(Lower(narrow)))
    ensures !HiddenBy(repo, narrow)
  {
    ContainsTransitive(Lower(Text(repo)), Strip(Lower(wide)), Strip(Lower(narrow)));
  }
}
