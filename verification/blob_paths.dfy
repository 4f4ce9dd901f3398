/**
 The path computations of the blob-storage transfers of `EndpointsClient`: which blob
 name each local file is uploaded under, how a container listing is cut down to names
 relative to a prefix, and which local path each downloaded blob is written to.

 The storage client, the file contents and the directory walk are outside the model: the
 walk of the source directory and the container's blob names (in listing order) are
 parameters, and an upload or a download is represented by the pair of names it connects.
 */
module BlobPaths {
  import opened Common
  import opened PosixPath
  import IpExport

  // ---------------------------------------------------------------------------
  // Upload
  // ---------------------------------------------------------------------------

  /** One step of `os.walk(source)`: a directory, given relative to the source ("" for the
      source itself), and the names of the files directly inside it. */
  datatype WalkEntry = WalkEntry(subdir: string, files: seq<string>)

  /** An upload: the local file read and the blob name written. */
  datatype Upload = Upload(local: string, blob: string)

  /** A file name as a directory listing reports it. */
  predicate FileNameOk(name: string)
  {
    name != "" && '/' !in name
  }

  /** A sub-directory as the walk reports it, relative to the source. */
  predicate SubdirOk(sub: string)
  {
    sub == "" || (sub != "." && !IsAbsolute(sub) && !EndsWith(sub, '/'))
  }

  predicate WalkOk(walk: seq<WalkEntry>)
  {
    forall k :: 0 <= k < |walk| ==>
      SubdirOk(walk[k].subdir) && forall i :: 0 <= i < |walk[k].files| ==> FileNameOk(walk[k].files[i])
  }

  /** The directory `upload_dir` walks: the given source, or the artifacts directory when
      none is given. */
  function UploadSource(workingPath: string, source: string): (src: string)
    ensures src != ""
    ensures source != "" ==> src == source
    ensures source == "" ==> src == IpExport.ArtifactsPath(workingPath)
  {
    if source == "" then IpExport.ArtifactsPath(workingPath) else source
  }

  /** The blob-name prefix: the destination and a `/` when a destination is given, then
      the source's base name and a `/`. */
  function UploadPrefix(source: string, dest: string): (prefix: string)
    ensures EndsWith(prefix, '/')
  {
    var prefix := (if dest == "" then "" else dest + "/") + Basename(source) + "/";
    assert prefix[|prefix| - 1] == '/';
    prefix
  }

  /** Without a destination the prefix is the source's base name and a `/`; a destination
      puts the same prefix inside the directory `dest/`. */
  lemma UploadPrefixParts(source: string, dest: string)
    ensures UploadPrefix(source, "") == Basename(source) + "/"
    ensures dest != "" ==> UploadPrefix(source, dest) == dest + "/" + UploadPrefix(source, "")
  {
    PrefixShape(dest, Basename(source));
  }

  lemma PrefixShape(dest: string, b: string)
    ensures ("" + b + "/") == b + "/"
    ensures dest + "/" + b + "/" == dest + "/" + ("" + b + "/")
  {
  }

  /** The `root` the walk yields for a sub-directory. */
  function WalkRoot(source: string, sub: string): string
  {
    if sub == "" then source else Join(source, sub)
  }

  /** The path of a file relative to the source. */
  function RelName(sub: string, name: string): string
  {
    if sub == "" then name else sub + "/" + name
  }

  /** `dir_part`: the root relative to the source, with a `/` appended, or nothing for the
      source itself. */
  function DirPart(source: string, sub: string): (d: string)
    requires source != "" && SubdirOk(sub)
    ensures d == if sub == "" then "" else sub + "/"
  {
    var root := WalkRoot(source, sub);
    assert sub != "" ==> Under(root, source) && RelPath(root, source) == Ok(sub) by {
      if sub != "" {
        RelPathOfJoin(source, sub);
      }
    }
    var rel := RelPath(root, source).value;
    if rel == "." then "" else rel + "/"
  }

  /** The uploads for the files of one walk step. */
  function EntryUploads(source: string, prefix: string, e: WalkEntry): (ups: seq<Upload>)
    requires source != "" && SubdirOk(e.subdir)
    ensures |ups| == |e.files|
  {
    seq(|e.files|, i requires 0 <= i < |e.files| =>
      Upload(Join(WalkRoot(source, e.subdir), e.files[i]), prefix + DirPart(source, e.subdir) + e.files[i]))
  }

  function FileCount(walk: seq<WalkEntry>): nat
  {
    if |walk| == 0 then 0 else FileCount(walk[..|walk| - 1]) + |walk[|walk| - 1].files|
  }

  /** `upload_dir(source, dest)`: the uploads in walk order. */
  function UploadDir(workingPath: string, source: string, dest: string, walk: seq<WalkEntry>): (ups: seq<Upload>)
    requires WalkOk(walk)
    ensures |ups| == FileCount(walk)
  {
    if |walk| == 0 then []
    else
      var src := UploadSource(workingPath, source);
      var init := walk[..|walk| - 1];
      assert forall k :: 0 <= k < |init| ==> init[k] == walk[k];
      UploadDir(workingPath, source, dest, init) + EntryUploads(src, UploadPrefix(src, dest), walk[|walk| - 1])
  }

  /** A file inside the source: joining its walk root and its name is joining the source
      and its relative path. */
  lemma JoinWalkRoot(source: string, sub: string, name: string)
    requires source != "" && SubdirOk(sub) && FileNameOk(name)
    ensures Join(WalkRoot(source, sub), name) == Join(source, RelName(sub, name))
  {
    if sub != "" {
      JoinSubdir(source, sub, name);
    }
  }

  lemma JoinSubdir(source: string, sub: string, name: string)
    requires source != "" && sub != "" && SubdirOk(sub) && FileNameOk(name)
    ensures Join(Join(source, sub), name) == WithTrailingSlash(source) + (sub + "/" + name)
    ensures Join(source, sub + "/" + name) == WithTrailingSlash(source) + (sub + "/" + name)
  {
    var w := WithTrailingSlash(source);
    assert Join(source, sub) == w + sub;
    JoinBelow(w, sub, name);
  }

  /** A name joined onto a relative sub-directory of a directory `w`. */
  lemma JoinBelow(w: string, sub: string, name: string)
    requires sub != "" && !IsAbsolute(sub) && !EndsWith(sub, '/')
    requires name != "" && !IsAbsolute(name)
    ensures Join(w + sub, name) == w + (sub + "/" + name)
    ensures !IsAbsolute(sub + "/" + name)
  {
    EndsWithConcat(w, sub, '/');
    assert (sub + "/" + name)[0] == sub[0];
  }

  /** The relative path of a file is non-empty, relative, has no trailing `/`, and ends
      in the file's name. */
  lemma RelNameShape(sub: string, name: string)
    requires SubdirOk(sub) && FileNameOk(name)
    ensures RelName(sub, name) != "" && !IsAbsolute(RelName(sub, name))
    ensures !EndsWith(RelName(sub, name), '/')
    ensures Basename(RelName(sub, name)) == name
  {
    var r := RelName(sub, name);
    assert name[0] in name && name[|name| - 1] in name;
    if sub != "" {
      assert r == (sub + "/") + name;
      assert r[0] == sub[0];
      EndsWithConcat(sub + "/", name, '/');
      assert EndsWith(sub + "/", '/');
      BasenameAfterSlash(sub + "/", name);
    } else {
      BasenameAfterSlash("", name);
      assert "" + name == name;
    }
  }

  /** One uploaded file: the local path lies under the source, the blob is the prefix
      and the local path relative to the source, and both end in the file's name. */
  lemma UploadOfFile(src: string, dest: string, sub: string, name: string)
    requires src != "" && SubdirOk(sub) && FileNameOk(name)
    ensures var u := Upload(Join(WalkRoot(src, sub), name), UploadPrefix(src, dest) + DirPart(src, sub) + name);
      && Under(u.local, src)
      && RelPath(u.local, src) == Ok(RelName(sub, name))
      && u.blob == UploadPrefix(src, dest) + RelName(sub, name)
      && Basename(u.blob) == name && Basename(u.local) == name
  {
    var prefix := UploadPrefix(src, dest);
    var rel := RelName(sub, name);
    var local := Join(WalkRoot(src, sub), name);
    var blob := prefix + DirPart(src, sub) + name;
    assert local == WithTrailingSlash(src) + rel by {
      JoinWalkRoot(src, sub, name);
      RelNameShape(sub, name);
    }
    assert Under(local, src) && RelPath(local, src) == Ok(rel) by {
      RelNameShape(sub, name);
      RelPathOfJoin(src, rel);
    }
    assert blob == prefix + rel;
    assert Basename(blob) == name by {
      RelNameShape(sub, name);
      BasenameOfJoined(prefix, rel, name);
    }
    assert Basename(local) == name by {
      RelNameShape(sub, name);
      BasenameOfJoined(WithTrailingSlash(src), rel, name);
    }
  }

  /** A base name survives prepending a directory that ends in `/`. */
  lemma BasenameOfJoined(dir: string, rel: string, name: string)
    requires dir == "" || EndsWith(dir, '/')
    requires FileNameOk(name) && Basename(rel) == name
    ensures Basename(dir + rel) == name
  {
    var p := dir + rel;
    var k := |rel| - |name|;
    assert rel[k..] == name;
    assert p[|dir| + k..] == name;
    if k > 0 {
      assert rel[k - 1] == '/';
      assert p[|dir| + k - 1] == '/';
    } else if |dir| > 0 {
      assert p[|dir| - 1] == '/';
    }
    BasenameOfSuffix(p, name);
  }

  /** Every upload connects a file under the source with the blob named by the prefix and
      the file's path relative to the source, and the blob keeps the file's base name. */
  lemma {:induction false} UploadBlobIsRelPath(workingPath: string, source: string, dest: string, walk: seq<WalkEntry>)
    requires WalkOk(walk)
    ensures var src := UploadSource(workingPath, source);
      forall u :: u in UploadDir(workingPath, source, dest, walk) ==>
        && Under(u.local, src)
        && RelPath(u.local, src).Ok?
        && u.blob == UploadPrefix(src, dest) + RelPath(u.local, src).value
        && Basename(u.blob) == Basename(u.local)
  {
    if |walk| > 0 {
      var src := UploadSource(workingPath, source);
      var prefix := UploadPrefix(src, dest);
      var init := walk[..|walk| - 1];
      assert forall k :: 0 <= k < |init| ==> init[k] == walk[k];
      UploadBlobIsRelPath(workingPath, source, dest, init);
      var e := walk[|walk| - 1];
      var ups := EntryUploads(src, prefix, e);
      forall u | u in ups
        ensures Under(u.local, src) && RelPath(u.local, src).Ok?
        ensures u.blob == prefix + RelPath(u.local, src).value
        ensures Basename(u.blob) == Basename(u.local)
      {
        var i :| 0 <= i < |ups| && ups[i] == u;
        UploadOfFile(src, dest, e.subdir, e.files[i]);
      }
    }
  }

  /** Every file of the walk is uploaded, to the blob named by the prefix and its path
      relative to the source. */
  lemma {:induction false} UploadCoversWalk(workingPath: string, source: string, dest: string, walk: seq<WalkEntry>)
    requires WalkOk(walk)
    ensures var src := UploadSource(workingPath, source);
      forall k, i :: 0 <= k < |walk| && 0 <= i < |walk[k].files| ==>
        Upload(Join(src, RelName(walk[k].subdir, walk[k].files[i])),
               UploadPrefix(src, dest) + RelName(walk[k].subdir, walk[k].files[i]))
          in UploadDir(workingPath, source, dest, walk)
  {
    if |walk| > 0 {
      var src := UploadSource(workingPath, source);
      var prefix := UploadPrefix(src, dest);
      var init := walk[..|walk| - 1];
      assert forall k :: 0 <= k < |init| ==> init[k] == walk[k];
      UploadCoversWalk(workingPath, source, dest, init);
      var e := walk[|walk| - 1];
      var ups := EntryUploads(src, prefix, e);
      forall i | 0 <= i < |e.files|
        ensures Upload(Join(src, RelName(e.subdir, e.files[i])), prefix + RelName(e.subdir, e.files[i])) in ups
      {
        JoinWalkRoot(src, e.subdir, e.files[i]);
        assert ups[i] == Upload(Join(src, RelName(e.subdir, e.files[i])), prefix + RelName(e.subdir, e.files[i]));
      }
    }
  }

  /** The timer function's `upload_dir()`: the artifacts under `/tmp` go to blobs named
      `artifacts/<file>`. */
  lemma TimerUploadExample(name: string)
    requires FileNameOk(name)
    ensures UploadDir("/tmp", "", "", [WalkEntry("", [name])]) ==
      [Upload("/tmp/artifacts/" + name, "artifacts/" + name)]
  {
    var e := WalkEntry("", [name]);
    var src := "/tmp/artifacts";
    var want := [Upload("/tmp/artifacts/" + name, "artifacts/" + name)];
    assert UploadSource("/tmp", "") == src;
    assert UploadPrefix(src, "") == "artifacts/" by {
      assert src == "/tmp/" + "artifacts";
      BasenameAfterSlash("/tmp/", "artifacts");
    }
    var ups := EntryUploads(src, "artifacts/", e);
    assert ups == want by {
      assert !EndsWith(src, '/');
      OneFileEntry(src, "artifacts/", name);
      assert src + "/" + name == "/tmp/artifacts/" + name;
    }
    assert UploadDir("/tmp", "", "", [e]) == [] + ups by {
      assert [e][..0] == [];
    }
    assert [] + want == want;
  }

  /** The uploads of a single file directly inside the source. */
  lemma OneFileEntry(src: string, prefix: string, name: string)
    requires src != "" && !EndsWith(src, '/') && FileNameOk(name)
    ensures EntryUploads(src, prefix, WalkEntry("", [name])) == [Upload(src + "/" + name, prefix + name)]
  {
    var ups := EntryUploads(src, prefix, WalkEntry("", [name]));
    assert name[0] in name;
    assert Join(WalkRoot(src, ""), name) == src + "/" + name;
    assert DirPart(src, "") == "";
    assert ups[0] == Upload(src + "/" + name, prefix + name);
  }

  /** A source given with a trailing `/` has an empty base name, so without a destination
      every blob name starts with `/`. */
  lemma TrailingSlashSource(source: string)
    requires EndsWith(source, '/')
    ensures UploadPrefix(source, "") == "/"
  {
    assert BaseStart(source) == |source|;
  }

  // ---------------------------------------------------------------------------
  // Listing
  // ---------------------------------------------------------------------------

  /** The blobs the service lists for `name_starts_with = prefix`, in listing order. */
  function Matching(container: seq<string>, prefix: string): (ms: seq<string>)
    ensures forall m :: m in ms <==> m in container && StartsWith(m, prefix)
  {
    if |container| == 0 then []
    else
      var init := Matching(container[..|container| - 1], prefix);
      var last := container[|container| - 1];
      assert forall m :: m in container <==> m in container[..|container| - 1] || m == last;
      if StartsWith(last, prefix) then init + [last] else init
  }

  /** `ls_files(path, recursive)` over the container's blob names: the names under
      `path/`, relative to it, and only the direct children unless `recursive`. */
  function LsFiles(path: string, recursive: bool, container: seq<string>): (r: Result<seq<string>>)
    ensures r.Err? <==> path == "" && "" in container
    ensures r.Err? ==> r.error == EmptyPathError
  {
    assert "" in Matching(container, WithTrailingSlash(path)) <==> path == "" && "" in container;
    ListRelative(WithTrailingSlash(path), recursive, Matching(container, WithTrailingSlash(path)))
  }

  /** The loop of `ls_files` over the listed names. */
  function ListRelative(prefix: string, recursive: bool, names: seq<string>): (r: Result<seq<string>>)
    requires prefix == "" || EndsWith(prefix, '/')
    requires forall m :: m in names ==> StartsWith(m, prefix)
    ensures r.Err? <==> "" in names
    ensures r.Err? ==> r.error == EmptyPathError
    ensures r.Ok? ==> |r.value| <= |names|
    ensures r.Ok? && recursive ==> |r.value| == |names|
  {
    if |names| == 0 then Ok([])
    else
      var init := names[..|names| - 1];
      var last := names[|names| - 1];
      assert forall m :: m in names <==> m in init || m == last;
      assert Under(last, prefix) by {
        assert WithTrailingSlash(prefix) == prefix || prefix == "";
      }
      match ListRelative(prefix, recursive, init)
      case Err(e) => Err(e)
      case Ok(files) =>
        match RelPath(last, prefix)
        case Err(e) => Err(e)
        case Ok(rel) => if recursive || '/' !in rel then Ok(files + [rel]) else Ok(files)
  }

  /** What `ls_files` lists are exactly the relative names of the matching blobs, only
      direct children in the non-recursive mode. */
  lemma {:induction false} ListRelativeMembers(prefix: string, recursive: bool, names: seq<string>)
    requires prefix == "" || EndsWith(prefix, '/')
    requires forall m :: m in names ==> StartsWith(m, prefix)
    requires "" !in names
    ensures forall f :: f in ListRelative(prefix, recursive, names).value <==>
      exists m :: m in names && Under(m, prefix) && RelPath(m, prefix) == Ok(f) && (recursive || '/' !in f)
  {
    if |names| > 0 {
      var init := names[..|names| - 1];
      var last := names[|names| - 1];
      assert "" !in init && forall m :: m in init ==> StartsWith(m, prefix) by {
        assert forall m :: m in init ==> m in names;
      }
      var files := ListRelative(prefix, recursive, init).value;
      assert ListsExactly(prefix, recursive, init, files) by {
        ListRelativeMembers(prefix, recursive, init);
      }
      assert last in names;
      assert Under(last, prefix) by {
        assert WithTrailingSlash(prefix) == prefix;
      }
      var rel := RelPath(last, prefix).value;
      var files' := if recursive || '/' !in rel then files + [rel] else files;
      assert ListRelative(prefix, recursive, names) == Ok(files');
      ListsExactlySnoc(prefix, recursive, names, files, rel, files');
    }
  }

  /** `ls_files(path, recursive)`: it fails only for an empty path over a container
      holding a blob with the empty name; otherwise it lists exactly the names, relative
      to `path/`, of the blobs under it, only direct children unless `recursive`. */
  lemma LsFilesLists(path: string, recursive: bool, container: seq<string>)
    ensures LsFiles(path, recursive, container).Err? <==> path == "" && "" in container
    ensures var prefix := WithTrailingSlash(path);
      var r := LsFiles(path, recursive, container);
      r.Ok? ==> forall f :: f in r.value <==>
        exists m :: m in container && StartsWith(m, prefix) && Under(m, prefix) &&
          RelPath(m, prefix) == Ok(f) && (recursive || '/' !in f)
  {
    var prefix := WithTrailingSlash(path);
    var ms := Matching(container, prefix);
    assert "" in ms <==> path == "" && "" in container;
    if "" !in ms {
      ListRelativeMembers(prefix, recursive, ms);
    }
  }

  /** `files` are exactly the relative names of `names` that the mode keeps. */
  ghost predicate ListsExactly(prefix: string, recursive: bool, names: seq<string>, files: seq<string>)
  {
    forall f :: f in files <==>
      exists m :: m in names && Under(m, prefix) && RelPath(m, prefix) == Ok(f) && (recursive || '/' !in f)
  }

  lemma ListsExactlySnoc(prefix: string, recursive: bool, names: seq<string>, files: seq<string>,
                         rel: string, files': seq<string>)
    requires |names| > 0 && ListsExactly(prefix, recursive, names[..|names| - 1], files)
    requires Under(names[|names| - 1], prefix) && RelPath(names[|names| - 1], prefix) == Ok(rel)
    requires files' == if recursive || '/' !in rel then files + [rel] else files
    ensures ListsExactly(prefix, recursive, names, files')
  {
    var init := names[..|names| - 1];
    var last := names[|names| - 1];
    assert forall m :: m in names <==> m in init || m == last;
  }

  /** In recursive mode the listing is aligned with the matching names: entry `i` is the
      `i`-th name relative to the prefix, so prefix and entry rebuild the blob name. */
  lemma {:induction false} RecursiveListingRebuildsNames(prefix: string, names: seq<string>)
    requires prefix == "" || EndsWith(prefix, '/')
    requires forall m :: m in names ==> StartsWith(m, prefix)
    requires "" !in names
    ensures var files := ListRelative(prefix, true, names).value;
      forall i :: 0 <= i < |names| && names[i] != prefix && !EndsWith(names[i], '/') ==>
        prefix + files[i] == names[i]
  {
    if |names| > 0 {
      var init := names[..|names| - 1];
      var last := names[|names| - 1];
      assert "" !in init && forall m :: m in init ==> StartsWith(m, prefix) by {
        assert forall m :: m in init ==> m in names;
      }
      var ts := ListRelative(prefix, true, init).value;
      assert Rebuilds(prefix, init, ts) by {
        RecursiveListingRebuildsNames(prefix, init);
      }
      assert last in names;
      assert Under(last, prefix) by {
        assert WithTrailingSlash(prefix) == prefix;
      }
      var rel := RelPath(last, prefix).value;
      assert ListRelative(prefix, true, names) == Ok(ts + [rel]);
      assert last != prefix && !EndsWith(last, '/') ==> prefix + rel == last by {
        if last != prefix && !EndsWith(last, '/') {
          RelPathRebuilds(prefix, last);
        }
      }
      RebuildsSnoc(prefix, names, ts, rel);
    }
  }

  /** Entry `i` of a listing, appended to the prefix, gives back name `i`. */
  ghost predicate Rebuilds(prefix: string, names: seq<string>, files: seq<string>)
  {
    && |files| == |names|
    && forall i :: 0 <= i < |names| && names[i] != prefix && !EndsWith(names[i], '/') ==>
      prefix + files[i] == names[i]
  }

  lemma RebuildsSnoc(prefix: string, names: seq<string>, files: seq<string>, rel: string)
    requires |names| > 0 && Rebuilds(prefix, names[..|names| - 1], files)
    requires var last := names[|names| - 1];
      last != prefix && !EndsWith(last, '/') ==> prefix + rel == last
    ensures Rebuilds(prefix, names, files + [rel])
  {
    assert forall i :: 0 <= i < |names| - 1 ==> names[..|names| - 1][i] == names[i];
  }

  /** A name below the prefix that is not the prefix itself and does not end in `/` is
      the prefix followed by its relative name. */
  lemma RelPathRebuilds(prefix: string, m: string)
    requires prefix == "" || EndsWith(prefix, '/')
    requires StartsWith(m, prefix) && m != prefix && !EndsWith(m, '/')
    ensures Under(m, prefix) && RelPath(m, prefix).Ok? && prefix + RelPath(m, prefix).value == m
  {
    assert WithTrailingSlash(prefix) == prefix;
    var rel := m[|prefix|..];
    assert m == prefix + rel;
    assert rel != "";
    assert !EndsWith(rel, '/') by {
      EndsWithConcat(prefix, rel, '/');
    }
    RelPathOfPrefixed(prefix, rel);
  }

  // ---------------------------------------------------------------------------
  // Download
  // ---------------------------------------------------------------------------

  /** A download: the blob read and the local path written. */
  datatype Transfer = Transfer(blob: string, local: string)

  /** The destination after `download_file`'s directory rule: a destination ending in `.`
      gets a `/`, and one ending in `/` gets the blob's base name. */
  function LocalTarget(source: string, dest: string): (t: string)
    ensures (EndsWith(dest, '.') || EndsWith(dest, '/')) ==> Basename(t) == Basename(source)
    ensures !EndsWith(dest, '.') && !EndsWith(dest, '/') ==> t == dest
    ensures EndsWith(dest, '/') ==> t == dest + Basename(source)
  {
    var d := if EndsWith(dest, '.') then dest + "/" else dest;
    assert EndsWith(dest, '.') ==> EndsWith(d, '/') by {
      if EndsWith(dest, '.') {
        EndsWithConcat(dest, "/", '/');
      }
    }
    if EndsWith(d, '/') then
      BasenameAfterSlash(d, Basename(source));
      d + Basename(source)
    else d
  }

  /** `download_file(source, dest)`: the local path is the destination, or the blob's base
      name inside it when it names a directory; creating the parent directory of a bare
      file name fails because that directory's name is empty. */
  function DownloadFile(source: string, dest: string): (r: Result<Transfer>)
    ensures r.Err? <==> '/' !in LocalTarget(source, dest)
    ensures r.Err? ==> r.error == NoSuchDirectory("")
    ensures r.Ok? ==> r.value.blob == source && r.value.local == LocalTarget(source, dest)
  {
    var target := LocalTarget(source, dest);
    if Dirname(target) == "" then Err(NoSuchDirectory("")) else Ok(Transfer(source, target))
  }

  /** The directory a whole listing is downloaded into: the destination as a directory,
      then the base name of the source directory. */
  function DownloadDir(source: string, dest: string): (d: string)
    requires dest != ""
    ensures EndsWith(d, '/') && '/' in d
  {
    var d := WithTrailingSlash(dest) + Basename(Normpath(WithTrailingSlash(source))) + "/";
    assert d[|d| - 1] == '/';
    assert '/' in d;
    d
  }
  /** The download directory of a source `dir/name`, followed by any number of `/`: the
      destination as a directory, then the source's last component and a `/`. */
  lemma DownloadDirOfSource(source: string, dest: string, dir: string, name: string, slashes: string)
    requires dest != ""
    requires dir == "" || EndsWith(dir, '/')
    requires name != "" && '/' !in name
    requires forall j :: 0 <= j < |slashes| ==> slashes[j] == '/'
    requires source == dir + name + slashes
    ensures DownloadDir(source, dest) == WithTrailingSlash(dest) + name + "/"
  {
    var full := dir + name;
    assert EndsWith(full, name[|name| - 1]) by {
      EndsWithConcat(dir, name, name[|name| - 1]);
    }
    assert !EndsWith(full, '/') by {
      assert name[|name| - 1] in name;
    }
    var run := if |slashes| == 0 then "/" else slashes;
    assert WithTrailingSlash(source) == full + run by {
      if |slashes| == 0 {
        assert source == full;
      } else {
        assert source[|source| - 1] == slashes[|slashes| - 1];
      }
    }
    StripSlashRun(full, run);
    assert (full + run)[|dir|] == name[0] != '/';
    assert Normpath(full + run) == full;
    BasenameAfterSlash(dir, name);
  }


  /** The downloads of the listed blobs, in listing order. */
  function DownloadAll(src: string, dir: string, blobs: seq<string>): (r: Result<seq<Transfer>>)
    requires src == "" || EndsWith(src, '/')
    requires '/' in dir
    ensures r.Ok? ==> |r.value| == |blobs|
  {
    if |blobs| == 0 then Ok([])
    else
      var init :- DownloadAll(src, dir, blobs[..|blobs| - 1]);
      var full := src + blobs[|blobs| - 1];
      assert StartsWith(full, src) && full[..|src|] == src;
      assert Under(full, src) by {
        assert WithTrailingSlash(src) == src;
      }
      var rel :- RelPath(full, src);
      var t :- DownloadFile(full, dir + rel);
      Ok(init + [t])
  }

  /** One step of the download loop. */
  lemma DownloadAllStep(src: string, dir: string, blobs: seq<string>, ts: seq<Transfer>, rel: string, t: Transfer)
    requires src == "" || EndsWith(src, '/')
    requires '/' in dir
    requires |blobs| > 0 && DownloadAll(src, dir, blobs[..|blobs| - 1]) == Ok(ts)
    requires Under(src + blobs[|blobs| - 1], src) && RelPath(src + blobs[|blobs| - 1], src) == Ok(rel)
    requires DownloadFile(src + blobs[|blobs| - 1], dir + rel) == Ok(t)
    ensures DownloadAll(src, dir, blobs) == Ok(ts + [t])
  {
  }

  /** `download(source, dest)`: every blob under `source/` into a directory named after the
      source, or the single blob `source` when nothing is listed. */
  function Download(source: string, dest: string, container: seq<string>): (r: Result<seq<Transfer>>)
    ensures dest == "" ==> r == Err(DestinationMissing)
  {
    if dest == "" then Err(DestinationMissing)
    else
      var blobs :- LsFiles(source, true, container);
      if |blobs| > 0 then DownloadAll(WithTrailingSlash(source), DownloadDir(source, dest), blobs)
      else
        var t :- DownloadFile(source, dest);
        Ok([t])
  }

  /** One listed blob whose name neither ends in `/` nor in `.`: it is fetched under its
      full name and written below the directory at its relative name. */
  lemma DownloadOne(src: string, dir: string, b: string)
    requires src == "" || EndsWith(src, '/')
    requires '/' in dir
    requires b != "" && !EndsWith(b, '/') && !EndsWith(b, '.')
    ensures Under(src + b, src) && RelPath(src + b, src) == Ok(b)
    ensures DownloadFile(src + b, dir + b) == Ok(Transfer(src + b, dir + b))
  {
    RelPathOfPrefixed(src, b);
    assert WithTrailingSlash(src) == src;
    EndsWithConcat(dir, b, '.');
    EndsWithConcat(dir, b, '/');
    SlashInConcat(dir, b);
  }

  /** The downloads of `blobs` succeed and each lands at the blob's relative name. */
  ghost predicate Placed(src: string, dir: string, blobs: seq<string>)
    requires src == "" || EndsWith(src, '/')
    requires '/' in dir
  {
    && DownloadAll(src, dir, blobs).Ok?
    && forall i :: 0 <= i < |blobs| ==>
      DownloadAll(src, dir, blobs).value[i] == Transfer(src + blobs[i], dir + blobs[i])
  }

  lemma PlacedSnoc(src: string, dir: string, blobs: seq<string>, ts: seq<Transfer>, t: Transfer)
    requires |blobs| > 0 && |ts| == |blobs| - 1
    requires forall i :: 0 <= i < |ts| ==> ts[i] == Transfer(src + blobs[i], dir + blobs[i])
    requires t == Transfer(src + blobs[|blobs| - 1], dir + blobs[|blobs| - 1])
    ensures forall i :: 0 <= i < |blobs| ==> (ts + [t])[i] == Transfer(src + blobs[i], dir + blobs[i])
  {
  }

  /** Every listed blob is fetched under its full name and written below the download
      directory at its name relative to the source; none of these can fail on the missing
      parent directory, since the target always contains a `/`. */
  lemma {:induction false} DownloadAllPlaces(src: string, dir: string, blobs: seq<string>)
    requires src == "" || EndsWith(src, '/')
    requires '/' in dir
    requires forall i :: 0 <= i < |blobs| ==> blobs[i] != "" && !EndsWith(blobs[i], '/') && !EndsWith(blobs[i], '.')
    ensures DownloadAll(src, dir, blobs).Ok?
    ensures forall i :: 0 <= i < |blobs| ==>
      DownloadAll(src, dir, blobs).value[i] == Transfer(src + blobs[i], dir + blobs[i])
  {
    if |blobs| > 0 {
      var init := blobs[..|blobs| - 1];
      var b := blobs[|blobs| - 1];
      assert Placed(src, dir, init) by {
        assert forall i :: 0 <= i < |init| ==> init[i] == blobs[i];
        DownloadAllPlaces(src, dir, init);
      }
      PlacedStep(src, dir, blobs);
    }
  }

  lemma PlacedStep(src: string, dir: string, blobs: seq<string>)
    requires src == "" || EndsWith(src, '/')
    requires '/' in dir
    requires |blobs| > 0 && Placed(src, dir, blobs[..|blobs| - 1])
    requires blobs[|blobs| - 1] != "" && !EndsWith(blobs[|blobs| - 1], '/') && !EndsWith(blobs[|blobs| - 1], '.')
    ensures Placed(src, dir, blobs)
  {
    var b := blobs[|blobs| - 1];
    var ts := DownloadAll(src, dir, blobs[..|blobs| - 1]).value;
    var t := Transfer(src + b, dir + b);
    assert DownloadAll(src, dir, blobs) == Ok(ts + [t]) by {
      DownloadOne(src, dir, b);
      DownloadAllStep(src, dir, blobs, ts, b, t);
    }
    PlacedSnoc(src, dir, blobs, ts, t);
  }

  /** A blob whose relative name ends in `.` is written below a directory of that name,
      for the directory rule of `download_file` applies to the computed target too. */
  lemma DotNameQuirk(src: string, dir: string, b: string)
    requires src == "" || EndsWith(src, '/')
    requires '/' in dir
    requires b != "" && '/' !in b && EndsWith(b, '.')
    ensures DownloadAll(src, dir, [b]) == Ok([Transfer(src + b, dir + b + "/" + b)])
  {
    var t := Transfer(src + b, dir + b + "/" + b);
    assert DownloadAll(src, dir, [b]) == Ok([] + [t]) by {
      assert [b][..0] == [];
      RelPathOfDotName(src, b);
      DownloadDotName(src, dir, b);
      DownloadAllStep(src, dir, [b], [], b, t);
    }
    assert [] + [t] == [t];
  }

  lemma RelPathOfDotName(src: string, b: string)
    requires src == "" || EndsWith(src, '/')
    requires b != "" && '/' !in b
    ensures Under(src + b, src) && RelPath(src + b, src) == Ok(b)
  {
    assert !EndsWith(b, '/') by {
      assert b[|b| - 1] in b;
    }
    RelPathOfPrefixed(src, b);
    assert WithTrailingSlash(src) == src;
  }

  lemma DownloadDotName(src: string, dir: string, b: string)
    requires src == "" || EndsWith(src, '/')
    requires '/' in dir
    requires b != "" && '/' !in b && EndsWith(b, '.')
    ensures DownloadFile(src + b, dir + b) == Ok(Transfer(src + b, dir + b + "/" + b))
  {
    assert LocalTarget(src + b, dir + b) == dir + b + "/" + b by {
      DotTarget(src, dir, b);
    }
    var target := dir + b + "/" + b;
    assert '/' in target by {
      assert target[|dir + b|] == '/';
    }
  }

  lemma DotTarget(src: string, dir: string, b: string)
    requires src == "" || EndsWith(src, '/')
    requires b != "" && '/' !in b && EndsWith(b, '.')
    ensures LocalTarget(src + b, dir + b) == dir + b + "/" + b
  {
    var dest := dir + b;
    assert EndsWith(dest, '.') by {
      EndsWithConcat(dir, b, '.');
    }
    TargetOfDotDest(src + b, dest);
    assert Basename(src + b) == b by {
      BasenameAfterSlash(src, b);
    }
  }

  /** A destination ending in `.` is taken as a directory. */
  lemma TargetOfDotDest(source: string, dest: string)
    requires EndsWith(dest, '.')
    ensures LocalTarget(source, dest) == dest + "/" + Basename(source)
  {
  }

  /** A single blob downloaded to a bare file name, or to the empty destination, fails:
      `os.makedirs("")` raises. */
  lemma BareFileNameFails(source: string, dest: string)
    requires '/' !in dest && !EndsWith(dest, '.')
    ensures DownloadFile(source, dest) == Err(NoSuchDirectory(""))
  {
  }

  /** No blob lies under `source/`: `download` treats the source as one blob and fetches
      it with `download_file`. */
  lemma DownloadSingle(source: string, dest: string, container: seq<string>)
    requires dest != ""
    requires forall m :: m in container ==> !StartsWith(m, WithTrailingSlash(source))
    ensures Download(source, dest, container) ==
      match DownloadFile(source, dest)
      case Ok(t) => Ok([t])
      case Err(e) => Err(e)
  {
    HeadIn(Matching(container, WithTrailingSlash(source)));
  }

  lemma HeadIn(ms: seq<string>)
    ensures |ms| > 0 ==> ms[0] in ms
  {
  }

  /** A recursive download of a directory fetches exactly the blobs listed under it, in
      listing order, each to the download directory at its relative name, provided no
      listed name is the prefix itself or ends in `/` or `.`. */
  lemma DownloadFetchesListed(source: string, dest: string, container: seq<string>)
    requires dest != ""
    requires var ms := Matching(container, WithTrailingSlash(source));
      && |ms| > 0
      && forall i :: 0 <= i < |ms| ==>
        ms[i] != WithTrailingSlash(source) && !EndsWith(ms[i], '/') && !EndsWith(ms[i], '.')
    ensures LsFiles(source, true, container).Ok? && Download(source, dest, container).Ok?
    ensures var ms := Matching(container, WithTrailingSlash(source));
      var files := LsFiles(source, true, container).value;
      var ts := Download(source, dest, container).value;
      && |files| == |ts| == |ms|
      && forall i :: 0 <= i < |ms| ==>
        && WithTrailingSlash(source) + files[i] == ms[i]
        && ts[i] == Transfer(ms[i], DownloadDir(source, dest) + files[i])
  {
    var src := WithTrailingSlash(source);
    var dir := DownloadDir(source, dest);
    var ms := Matching(container, src);
    assert Listed(src, ms) by {
      ListedOfMatching(src, container, ms);
    }
    var files := ListRelative(src, true, ms).value;
    assert Rebuilds(src, ms, files) by {
      RecursiveListingRebuildsNames(src, ms);
    }
    assert LsFiles(source, true, container) == Ok(files);
    assert Download(source, dest, container) == DownloadAll(src, dir, files);
    PlacedListing(src, dir, ms, files);
  }

  /** The names a listing under `src` works on: each starts with `src`, is not `src`
      itself and ends in neither `/` nor `.`. */
  ghost predicate Listed(src: string, ms: seq<string>)
  {
    forall i :: 0 <= i < |ms| ==>
      StartsWith(ms[i], src) && ms[i] != src && !EndsWith(ms[i], '/') && !EndsWith(ms[i], '.')
  }

  lemma ListedOfMatching(src: string, container: seq<string>, ms: seq<string>)
    requires ms == Matching(container, src)
    requires forall i :: 0 <= i < |ms| ==> ms[i] != src && !EndsWith(ms[i], '/') && !EndsWith(ms[i], '.')
    ensures Listed(src, ms) && "" !in ms
  {
    forall i | 0 <= i < |ms|
      ensures StartsWith(ms[i], src) && ms[i] != ""
    {
      assert ms[i] in ms;
    }
  }

  /** Downloading the relative names of listed blobs fetches each blob to the directory
      at its name relative to `src`. */
  lemma PlacedListing(src: string, dir: string, ms: seq<string>, files: seq<string>)
    requires src == "" || EndsWith(src, '/')
    requires '/' in dir
    requires Listed(src, ms) && Rebuilds(src, ms, files)
    ensures DownloadAll(src, dir, files).Ok?
    ensures var ts := DownloadAll(src, dir, files).value;
      && |ts| == |ms|
      && forall i :: 0 <= i < |ms| ==> ts[i] == Transfer(ms[i], dir + files[i])
  {
    forall i | 0 <= i < |files|
      ensures files[i] != "" && !EndsWith(files[i], '/') && !EndsWith(files[i], '.')
    {
      RelativeEntryShape(src, ms[i], files[i]);
    }
    DownloadAllPlaces(src, dir, files);
  }

  /** A listing entry rebuilt into a name that is not the prefix and ends in neither `/`
      nor `.` is itself a non-empty name ending in neither. */
  lemma RelativeEntryShape(src: string, m: string, f: string)
    requires src + f == m && m != src && !EndsWith(m, '/') && !EndsWith(m, '.')
    ensures f != "" && !EndsWith(f, '/') && !EndsWith(f, '.')
  {
    assert src + "" == src;
    EndsWithConcat(src, f, '/');
    EndsWithConcat(src, f, '.');
  }
}
