/**
 * The repository list as it is kept in the configuration: the window writes
 * `preferences["repositories"]` as a list of path strings, and start-up reads
 * it back with `[Path(p) for p in preferences.get("repositories", [])]`.
 */
module Preferences {
  import opened Wrappers
  import opened Paths
  import opened ConfigManager

  const REPOSITORIES: string := "repositories"

  datatype StoredError =
    | NotIterable(value: Json)      // iterating the stored value raised `TypeError`
    | NotAPathString(item: Json)    // `Path(p)` raised `TypeError` on a non-string item

  /** `[Path(p) for p in items]` for the items of a stored JSON list. */
  function ParseAll(items: seq<Json>): (r: Result<seq<Path>, StoredError>)
    ensures r.Success? <==> forall i :: 0 <= i < |items| ==> items[i].JStr?
    ensures r.Success? ==> |r.value| == |items|
    ensures r.Success? ==> forall i :: 0 <= i < |items| ==> r.value[i] == Parse(items[i].s)
    ensures r.Failure? ==> r.error.NotAPathString? && r.error.item in items && !r.error.item.JStr?
    decreases |items|
  {
    if items == [] then Success([])
    else
      match items[0]
      case JStr(s) =>
        var rest :- ParseAll(items[1..]);
        Success([Parse(s)] + rest)
      case v => Failure(NotAPathString(v))
  }

  /**
   * The stored list: empty when the key is absent; a JSON list of strings
   * parsed item by item; a string iterated character by character.
   */
  function StoredPaths(prefs: map<string, Json>): (r: Result<seq<Path>, StoredError>)
    ensures REPOSITORIES !in prefs ==> r == Success([])
    ensures REPOSITORIES in prefs && prefs[REPOSITORIES].JArr? ==> r == ParseAll(prefs[REPOSITORIES].items)
    ensures REPOSITORIES in prefs && prefs[REPOSITORIES].JStr? ==>
              r.Success? && |r.value| == |prefs[REPOSITORIES].s|
              && forall i :: 0 <= i < |prefs[REPOSITORIES].s| ==> r.value[i] == Parse([prefs[REPOSITORIES].s[i]])
    ensures REPOSITORIES in prefs && !prefs[REPOSITORIES].JArr? && !prefs[REPOSITORIES].JStr? ==>
              r == Failure(NotIterable(prefs[REPOSITORIES]))
  {
    if REPOSITORIES !in prefs then Success([])
    else match prefs[REPOSITORIES]
      case JArr(items) => ParseAll(items)
      case JStr(s) => Success(seq(|s|, i requires 0 <= i < |s| => Parse([s[i]])))
      case v => Failure(NotIterable(v))
  }

  /** `[str(repo) for repo in repos]` as JSON strings. */
  function Entries(repos: seq<Path>): (r: seq<Json>)
    ensures |r| == |repos|
    ensures forall i :: 0 <= i < |repos| ==> r[i] == JStr(Text(repos[i]))
  {
    seq(|repos|, i requires 0 <= i < |repos| => JStr(Text(repos[i])))
  }

  /**
   * `config.preferences["repositories"] = [str(repo) for repo in repos]`:
   * that one entry is replaced or added, and nothing else in the
   * configuration changes.
   */
  function WithRepositories(c: AppConfig, repos: seq<Path>): (r: AppConfig)
    ensures r.preferences.Keys == c.preferences.Keys + {REPOSITORIES}
    ensures r.preferences[REPOSITORIES] == JArr(Entries(repos))
    ensures forall k :: k in c.preferences && k != REPOSITORIES ==> r.preferences[k] == c.preferences[k]
    ensures r == c.(preferences := r.preferences)
  {
    c.(preferences := c.preferences[REPOSITORIES := JArr(Entries(repos))])
  }

  /** Reading back what was written gives the same list, path for path. */
  lemma StoredPathsOfWritten(c: AppConfig, repos: seq<Path>)
    requires forall i :: 0 <= i < |repos| ==> WellFormed(repos[i])
    ensures StoredPaths(WithRepositories(c, repos).preferences) == Success(repos)
  {
    var entries := Entries(repos);
    var r := ParseAll(entries);
    assert r.Success?;
    forall i | 0 <= i < |repos|
      ensures r.value[i] == repos[i]
    {
      ParseText(repos[i]);
    }
    assert r.value == repos;
    assert WithRepositories(c, repos).preferences[REPOSITORIES] == JArr(entries);
  }

  /**
   * Writing the list, saving the configuration, loading it again and reading
   * the list gives back the list written.
   */
  lemma ReloadWritten(c: AppConfig, repos: seq<Path>)
    requires forall i :: 0 <= i < |repos| ==> WellFormed(repos[i])
    ensures LoadConfig(Saved(WithRepositories(c, repos))).Success?
    ensures StoredPaths(LoadConfig(Saved(WithRepositories(c, repos))).value.config.preferences) == Success(repos)
  {
    LoadSaved(WithRepositories(c, repos));
    StoredPathsOfWritten(c, repos);
  }
}
