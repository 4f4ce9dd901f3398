/**
 The fragment of POSIX `os.path` the blob path computations rely on: basename, dirname,
 join, the trailing-slash part of normpath, and relpath for a path that lies under its
 start directory. Absolute-path resolution, `..`, `.` components and repeated
 separators inside a path are not modelled.
 */
module PosixPath {
  import opened Common

  predicate StartsWith(s: string, prefix: string)
  {
    |prefix| <= |s| && s[..|prefix|] == prefix
  }

  /** `p.startswith("/")`, the test `os.path.join` applies to its second argument. */
  predicate IsAbsolute(p: string)
  {
    |p| > 0 && p[0] == '/'
  }

  predicate EndsWith(s: string, c: char)
  {
    |s| > 0 && s[|s| - 1] == c
  }

  /** `p` with a `/` appended unless it is empty or already ends in one: the
      normalisation `ls_files` and `download` apply to a blob-name prefix. */
  function WithTrailingSlash(p: string): (r: string)
    ensures r == "" <==> p == ""
    ensures r != "" ==> EndsWith(r, '/')
    ensures r == p || r == p + "/"
    ensures EndsWith(p, '/') ==> r == p
    ensures p != "" && !EndsWith(p, '/') ==> r == p + "/"
  {
    if p != "" && !EndsWith(p, '/') then p + "/" else p
  }

  /** The index just past the last `/` of `p` (0 when there is none). */
  function BaseStart(p: string): (i: nat)
    ensures i <= |p|
    ensures i > 0 ==> p[i - 1] == '/'
    ensures '/' !in p[i..]
  {
    if |p| == 0 then 0
    else if p[|p| - 1] == '/' then |p|
    else
      var i := BaseStart(p[..|p| - 1]);
      assert p[i..] == p[..|p| - 1][i..] + [p[|p| - 1]];
      i
  }

  /** `os.path.basename`: everything after the last `/`. */
  function Basename(p: string): (b: string)
    ensures '/' !in b
    ensures |b| <= |p| && p[|p| - |b|..] == b
    ensures |b| < |p| ==> p[|p| - |b| - 1] == '/'
  {
    p[BaseStart(p)..]
  }

  /** A suffix without `/` that follows a `/` or starts the path is the base name. */
  lemma BasenameOfSuffix(p: string, name: string)
    requires '/' !in name
    requires |name| <= |p| && p[|p| - |name|..] == name
    requires |name| < |p| ==> p[|p| - |name| - 1] == '/'
    ensures Basename(p) == name
  {
    if name == "" && |p| > 0 {
      assert p[|p| - 1] == '/';
    }
  }

  lemma BasenameAfterSlash(d: string, b: string)
    requires d == "" || EndsWith(d, '/')
    requires '/' !in b
    ensures Basename(d + b) == b
  {
    var p := d + b;
    assert p[|p| - |b|..] == b;
    if |b| < |p| {
      assert p[|p| - |b| - 1] == d[|d| - 1];
    }
    BasenameOfSuffix(p, b);
  }

  lemma EndsWithConcat(a: string, b: string, c: char)
    requires b != ""
    ensures EndsWith(a + b, c) <==> EndsWith(b, c)
  {
    assert (a + b)[|a + b| - 1] == b[|b| - 1];
  }

  lemma SlashInConcat(a: string, b: string)
    requires '/' in a
    ensures '/' in a + b
  {
    var k :| 0 <= k < |a| && a[k] == '/';
    assert (a + b)[k] == '/';
  }

  /** `p` with every trailing `/` removed. */
  function StripTrailingSlashes(p: string): (r: string)
    ensures StartsWith(p, r)
    ensures !EndsWith(r, '/')
    ensures forall j :: |r| <= j < |p| ==> p[j] == '/'
  {
    if EndsWith(p, '/') then StripTrailingSlashes(p[..|p| - 1]) else p
  }

  /** `os.path.dirname`: everything up to the last `/`, with trailing slashes removed
      unless that would leave only slashes. */
  function Dirname(p: string): (d: string)
    ensures d == "" <==> '/' !in p
    ensures StartsWith(p, d)
  {
    var head := p[..BaseStart(p)];
    if head != "" && StripTrailingSlashes(head) != "" then StripTrailingSlashes(head) else head
  }

  /** `os.path.join(a, b)` for two components. */
  function Join(a: string, b: string): (r: string)
    ensures IsAbsolute(b) ==> r == b
    ensures !IsAbsolute(b) ==> r == WithTrailingSlash(a) + b
  {
    if IsAbsolute(b) then b
    else if a == "" || EndsWith(a, '/') then a + b
    else a + "/" + b
  }

  /** Removing trailing slashes undoes appending a run of them. */
  lemma {:induction false} StripSlashRun(s: string, run: string)
    requires !EndsWith(s, '/')
    requires forall j :: 0 <= j < |run| ==> run[j] == '/'
    ensures StripTrailingSlashes(s + run) == s
  {
    if |run| == 0 {
      assert s + run == s;
    } else {
      var shorter := run[..|run| - 1];
      assert (s + run)[..|s + run| - 1] == s + shorter;
      StripSlashRun(s, shorter);
    }
  }

  /** `os.path.normpath`, only for its treatment of the empty path and trailing slashes. */
  function Normpath(p: string): (r: string)
    ensures r != ""
    ensures !EndsWith(r, '/') || (forall j :: 0 <= j < |p| ==> p[j] == '/')
    ensures p == "" ==> r == "."
    ensures (exists j :: 0 <= j < |p| && p[j] != '/') ==> r == StripTrailingSlashes(p)
  {
    if p == "" then "."
    else
      var s := StripTrailingSlashes(p);
      if s != "" then s
      else if |p| == 2 then "//"   // POSIX keeps exactly two leading slashes
      else "/"
  }

  /** `path` names `start` itself or something inside the directory `start`. */
  predicate Under(path: string, start: string)
  {
    path == start || StartsWith(path, WithTrailingSlash(start))
  }

  /** `os.path.relpath(path, start)` for a path under `start`: the part after `start`
      and its separator, without trailing slashes, or `.` when nothing is left. */
  function RelPath(path: string, start: string): (r: Result<string>)
    requires Under(path, start)
    ensures r.Err? <==> path == ""
    ensures r.Err? ==> r.error == EmptyPathError
    ensures r.Ok? ==> r.value != "" && !EndsWith(r.value, '/')
    ensures r.Ok? && r.value != "." ==>
      StartsWith(path, WithTrailingSlash(start) + r.value) &&
      forall j :: |WithTrailingSlash(start) + r.value| <= j < |path| ==> path[j] == '/'
    ensures path != "" && path == start ==> r == Ok(".")
    ensures r.Ok? && path != start ==>
      (r.value == "." <==> StripTrailingSlashes(path[|WithTrailingSlash(start)|..]) in {"", "."})
  {
    if path == "" then Err(EmptyPathError)
    else if path == start then Ok(".")
    else
      var rest := StripTrailingSlashes(path[|WithTrailingSlash(start)|..]);
      if rest == "" then Ok(".") else Ok(rest)
  }

  /** Joining a relative name onto a directory and taking it relative to that
      directory again gives the name back. */
  lemma RelPathOfJoin(start: string, rel: string)
    requires rel != "" && !IsAbsolute(rel) && !EndsWith(rel, '/')
    ensures Under(Join(start, rel), start)
    ensures RelPath(Join(start, rel), start) == Ok(rel)
  {
    var path := Join(start, rel);
    var dir := WithTrailingSlash(start);
    assert path == dir + rel;
    assert path[..|dir|] == dir;
    assert path[|dir|..] == rel;
    assert path != start by {
      assert |path| > |start|;
    }
  }

  /** The same for a name appended to the slash-terminated prefix, the way `download`
      rebuilds a blob name from a listing entry. */
  lemma RelPathOfPrefixed(start: string, rel: string)
    requires rel != "" && !EndsWith(rel, '/')
    ensures Under(WithTrailingSlash(start) + rel, start)
    ensures RelPath(WithTrailingSlash(start) + rel, start) == Ok(rel)
  {
    var dir := WithTrailingSlash(start);
    var path := dir + rel;
    assert path[..|dir|] == dir;
    assert path[|dir|..] == rel;
    assert path != start by {
      assert |path| > |start|;
    }
  }
}
