/** File names and `/`-separated paths, as plain strings. A path is taken
    to be written in normal form: no repeated separators, no trailing
    separator and no `.` component after the first. */
module Paths {
  import opened Outcomes
  import opened Strings

  /** `str::strip_suffix`. */
  function StripSuffix(s: string, suffix: string): (r: Option<string>)
    ensures r.Some? <==> EndsWith(s, suffix)
    ensures r.Some? ==> r.value + suffix == s
  {
    if EndsWith(s, suffix) then Some(s[..|s| - |suffix|]) else None
  }

  /** The stem of a file name as `Path::file_stem` finds it: the part before
      the last `.`, unless that dot is the first character or there is none
      (then the whole name); `..` is its own stem. */
  function FileStem(name: string): (r: string)
    ensures |r| <= |name| && r == name[..|r|]
    ensures name == ".." || !(exists i :: 0 < i < |name| && name[i] == '.') ==> r == name
    ensures name != ".." && (exists i :: 0 < i < |name| && name[i] == '.') ==>
      0 < |r| < |name| && name[|r|] == '.' && '.' !in name[|r| + 1..]
  {
    if name == ".." then name
    else match LastIndexOf(name, '.')
      case None => name
      case Some(i) => if i == 0 then name else name[..i]
  }

  /** A stem with any extension that has no dot of its own is given back. */
  lemma StemOfExtended(stem: string, ext: string)
    requires |stem| > 0 && '.' !in ext && stem + "." + ext != ".."
    ensures FileStem(stem + "." + ext) == stem
  {
    var name := stem + "." + ext;
    assert name[|stem|] == '.';
    assert name[|stem| + 1..] == ext;
  }

  predicate IsAbsolute(path: string) {
    |path| > 0 && path[0] == '/'
  }

  /** `Path::strip_prefix` on paths in normal form: `root` must match whole
      leading components of `path`. */
  function StripPathPrefix(path: string, root: string): (r: Option<string>)
    ensures r.Some? ==> EndsWith(path, r.value)
    ensures path == root ==> r == Some("")
    ensures r.Some? && |r.value| > 0 && path != root ==>
      |root| < |path| && StartsWith(path, root) && (path[|root|] == '/' || (|root| > 0 && root[|root| - 1] == '/'))
    ensures r.Some? ==> path == root + r.value || path == root + "/" + r.value
    ensures StartsWith(path, root + "/") ==> r.Some?
    ensures r.None? <==> path != root && !StartsWith(path, root + "/") && !(EndsWith(root, "/") && StartsWith(path, root))
    ensures r.Some? && path != root && !EndsWith(root, "/") ==> path == root + "/" + r.value
    ensures EndsWith(root, "/") && StartsWith(path, root) ==> r == Some(path[|root|..])
  {
    if path == root then Some("")
    else if |root| > 0 && root[|root| - 1] == '/' && StartsWith(path, root) then Some(path[|root|..])
    else if StartsWith(path, root + "/") then Some(path[|root| + 1..])
    else None
  }

  /** `trim_start_matches("./")`: drops every leading `./`. */
  function TrimDotSlash(s: string): (r: string)
    ensures !StartsWith(r, "./")
    ensures exists k: nat :: s == Repeat("./", k) + r
    decreases |s|
  {
    if StartsWith(s, "./") then
      var r := TrimDotSlash(s[2..]);
      var k: nat :| s[2..] == Repeat("./", k) + r;
      assert s == Repeat("./", k + 1) + r by {
        assert s == "./" + s[2..];
        assert Repeat("./", k + 1) == "./" + Repeat("./", k);
      }
      r
    else
      assert s == Repeat("./", 0) + s;
      s
  }
}
