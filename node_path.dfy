/**
 * The parts of Node's `path` module that the manifest script calls, for the
 * names a directory listing yields: a single path component, never "." or
 * "..", free of '/' and of the platform separator. `toPosix` is the script's
 * own helper (scripts/generate-model-manifest.mjs:100-102).
 */
module NodePath {
  import opened Wrappers

  /** `path.sep`: '/' on POSIX systems, '\' on Windows. */
  predicate IsSeparator(sep: char) { sep == '/' || sep == '\\' }

  /** A name as `readdir` lists it: one non-empty component, not "." or "..". */
  predicate IsEntryName(name: string, sep: char) {
    name != "" && name != "." && name != ".." && '/' !in name && sep !in name
  }

  /** The index of the last '.' in `s`, if there is one. */
  function LastDot(s: string): (r: Option<nat>)
    ensures r.Some? ==> r.value < |s| && s[r.value] == '.' && forall j :: r.value < j < |s| ==> s[j] != '.'
    ensures r.None? ==> forall j :: 0 <= j < |s| ==> s[j] != '.'
  {
    if s == [] then None
    else if s[|s| - 1] == '.' then Some(|s| - 1)
    else LastDot(s[..|s| - 1])
  }

  /**
   * `path.extname(name)`: from the last '.' to the end, except that a name
   * whose only dot is its first character, a name without a dot and ".."
   * have the empty extension.
   */
  function Extname(name: string): (ext: string)
    ensures ext == "" <==> name == ".." || forall j :: 0 < j < |name| ==> name[j] != '.'
    ensures ext != "" ==> |ext| < |name| && ext == name[|name| - |ext|..] && ext[0] == '.'
    ensures ext != "" ==> forall j :: 0 < j < |ext| ==> ext[j] != '.'
  {
    if name == ".." then ""
    else
      match LastDot(name)
      case None => ""
      case Some(k) => if k == 0 then "" else name[k..]
  }

  /**
   * A name other than ".." that ends, after at least one character, in a dot
   * followed by no other dot has that piece as its extension.
   */
  lemma ExtnameOfSuffix(name: string, x: string)
    requires name != ".." && 0 < |x| < |name| && name[|name| - |x|..] == x
    requires x[0] == '.' && forall j :: 0 < j < |x| ==> x[j] != '.'
    ensures Extname(name) == x
  {
    var ext := Extname(name);
    assert name[|name| - |x|] == '.';
    assert ext != "" by {
      var j := |name| - |x|;
      assert 0 < j < |name| && name[j] == '.';
    }
  }

  /**
   * `path.basename(name, suffix)`: `name` without `suffix` when `suffix` is a
   * proper, non-empty suffix of it; "" when the two are equal; otherwise `name`.
   */
  function Basename(name: string, suffix: string): (r: string)
    ensures 0 < |suffix| < |name| && name[|name| - |suffix|..] == suffix ==> r + suffix == name
    ensures suffix != "" && suffix == name ==> r == ""
    ensures !(0 < |suffix| <= |name| && name[|name| - |suffix|..] == suffix) ==> r == name
  {
    if 0 < |suffix| <= |name| then
      if suffix == name then ""
      else if name[|name| - |suffix|..] == suffix then name[..|name| - |suffix|]
      else name
    else name
  }

  /** `path.join(dir, name)`; normalisation changes nothing for an entry name. */
  function Join(dir: string, name: string, sep: char): string
    requires IsEntryName(name, sep)
  {
    dir + [sep] + name
  }

  /** `toPosix`: `p.split(path.sep).join('/')`, i.e. every separator becomes '/'. */
  function ToPosix(p: string, sep: char): (r: string)
    ensures |r| == |p|
    ensures forall i :: 0 <= i < |p| ==> r[i] == (if p[i] == sep then '/' else p[i])
  {
    if p == [] then [] else [if p[0] == sep then '/' else p[0]] + ToPosix(p[1..], sep)
  }

  /** Stripping the extension and putting it back gives the name; a real extension leaves a non-empty stem. */
  lemma StemPlusExtension(name: string)
    ensures Basename(name, Extname(name)) + Extname(name) == name
    ensures Extname(name) != "" ==> Basename(name, Extname(name)) == name[..|name| - |Extname(name)|] != ""
  {
  }

  /** The POSIX form of `join(dir, name)` is `dir/name` whatever the platform separator. */
  lemma PosixJoin(dir: string, name: string, sep: char)
    requires IsSeparator(sep) && IsEntryName(name, sep) && sep !in dir
    ensures ToPosix(Join(dir, name, sep), sep) == dir + "/" + name
  {
    var j := Join(dir, name, sep);
    var r := ToPosix(j, sep);
    forall i | 0 <= i < |r| ensures r[i] == (dir + "/" + name)[i] {
      if i < |dir| {
        assert j[i] == dir[i];
      } else if i > |dir| {
        assert j[i] == name[i - |dir| - 1];
      }
    }
  }
}
