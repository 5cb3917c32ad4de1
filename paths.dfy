/**
 * POSIX paths as `pathlib.Path` represents them: a rooted flag and a list of
 * components. `Parse` is the `Path(string)` constructor, `Text` is `str(path)`,
 * and `Child` is the `/` operator with a plain directory-entry name.
 */
module Paths {

  datatype Path = Path(absolute: bool, parts: seq<string>)

  /** A component as pathlib keeps it: not empty, not ".", and free of separators. */
  predicate ValidPart(s: string) {
    s != "" && s != "." && '/' !in s
  }

  predicate WellFormed(p: Path) {
    forall i :: 0 <= i < |p.parts| ==> ValidPart(p.parts[i])
  }

  /** `p / name` for a name read from a directory listing. */
  function Child(p: Path, name: string): Path {
    Path(p.absolute, p.parts + [name])
  }

  /** The components joined by '/'. */
  function Join(parts: seq<string>): (r: string)
    ensures |parts| > 0 ==> |parts[0]| <= |r| && r[..|parts[0]|] == parts[0]
    decreases |parts|
  {
    if |parts| == 0 then ""
    else if |parts| == 1 then parts[0]
    else parts[0] + "/" + Join(parts[1..])
  }

  /** `str(path)`: a leading '/' for a rooted path, "." for the empty relative path. */
  function Text(p: Path): (r: string)
    ensures WellFormed(p) ==> r != [] && (r[0] == '/' <==> p.absolute)
  {
    if p.absolute then "/" + Join(p.parts)
    else if p.parts == [] then "."
    else Join(p.parts)
  }

  /** Index of the first '/' in `s`, or `|s|` when there is none. */
  function FirstSlash(s: string): (k: nat)
    ensures k <= |s|
    ensures '/' !in s[..k]
    ensures k < |s| ==> s[k] == '/'
  {
    if s == [] then 0
    else if s[0] == '/' then 0
    else 1 + FirstSlash(s[1..])
  }

  /** Empty segments (from repeated separators) and "." segments vanish. */
  function Keep(segment: string): seq<string> {
    if segment == "" || segment == "." then [] else [segment]
  }

  /** The components of a path string, as pathlib splits it. */
  function Components(s: string): seq<string>
    decreases |s|
  {
    var k := FirstSlash(s);
    Keep(s[..k]) + (if k == |s| then [] else Components(s[k + 1..]))
  }

  /**
   * `Path(s)`: rooted exactly when `s` starts with '/'; a plain name is a
   * one-component relative path, and "" and "." are the empty relative path.
   */
  function Parse(s: string): (r: Path)
    ensures r.absolute <==> |s| > 0 && s[0] == '/'
    ensures ValidPart(s) ==> r == Path(false, [s])
    ensures s == "" || s == "." ==> r == Path(false, [])
  {
    var k := FirstSlash(s);
    assert '/' !in s ==> k == |s| && s[..k] == s;
    Path(|s| > 0 && s[0] == '/', Components(s))
  }

  lemma {:induction false} ComponentsValid(s: string)
    ensures forall i :: 0 <= i < |Components(s)| ==> ValidPart(Components(s)[i])
    decreases |s|
  {
    var k := FirstSlash(s);
    if k < |s| {
      ComponentsValid(s[k + 1..]);
    }
  }

  /** Every parsed path is well formed. */
  lemma ParseWellFormed(s: string)
    ensures WellFormed(Parse(s))
  {
    ComponentsValid(s);
  }

  lemma {:induction false} ComponentsOfJoin(parts: seq<string>)
    requires forall i :: 0 <= i < |parts| ==> ValidPart(parts[i])
    ensures Components(Join(parts)) == parts
    decreases |parts|
  {
    if |parts| == 0 {
    } else if |parts| == 1 {
      var s := parts[0];
      assert FirstSlash(s) == |s|;
      assert s[..|s|] == s;
    } else {
      var head, rest := parts[0], Join(parts[1..]);
      var s := head + "/" + rest;
      assert s[..|head|] == head;
      assert s[|head|] == '/';
      assert FirstSlash(s) == |head|;
      assert s[|head| + 1..] == rest;
      ComponentsOfJoin(parts[1..]);
    }
  }

  /** `Path(str(p)) == p` for every path pathlib can produce. */
  lemma ParseText(p: Path)
    requires WellFormed(p)
    ensures Parse(Text(p)) == p
  {
    ComponentsOfJoin(p.parts);
    if p.absolute {
      var s := "/" + Join(p.parts);
      assert FirstSlash(s) == 0;
      assert s[1..] == Join(p.parts);
    } else if p.parts != [] {
      var s := Join(p.parts);
      assert |p.parts[0]| > 0 && p.parts[0][0] != '/';
      if |p.parts| > 1 {
        assert s[0] == p.parts[0][0];
      }
    }
  }
}
