/**
 `EndpointsClient.export_locally` of the timer function: one text file per service area
 in the artifacts directory, named after the key, holding one IP range per line.
 */
module IpExport {
  import opened Common
  import opened OrderedMaps
  import opened TextFiles
  import opened PosixPath
  import IpGrouping

  /** The artifacts sub-directory of the working path, and the default file-name prefix. */
  const OutPath: string := "artifacts"
  const DefaultPrefix: string := ""

  function ArtifactsPath(workingPath: string): string
  {
    workingPath + "/" + OutPath
  }

  /** The path of the file exported for `key`: a file inside the artifacts directory,
      directly inside it and named `<prefix><key>.txt` when neither part holds a `/`. */
  function FileName(artifactsPath: string, prefix: string, key: string): (path: string)
    ensures StartsWith(path, artifactsPath + "/")
    ensures '/' !in prefix && '/' !in key ==> Basename(path) == prefix + key + ".txt"
  {
    var dir, name := artifactsPath + "/", prefix + key + ".txt";
    InDirectory(dir, name);
    dir + name
  }

  lemma InDirectory(dir: string, name: string)
    requires EndsWith(dir, '/')
    ensures StartsWith(dir + name, dir)
    ensures '/' !in name ==> Basename(dir + name) == name
  {
    assert (dir + name)[..|dir|] == dir;
    if '/' !in name {
      BasenameAfterSlash(dir, name);
    }
  }

  /** Recovers the key from an exported file's path: the inverse of `FileName`. */
  function KeyOfFileName(artifactsPath: string, prefix: string, path: string): (k: Option<string>)
    ensures k.Some? ==> FileName(artifactsPath, prefix, k.value) == path
  {
    var head := artifactsPath + "/" + prefix;
    if |path| >= |head| + 4 && StartsWith(path, head) && path[|path| - 4..] == ".txt" then
      var k := path[|head|..|path| - 4];
      assert path == head + k + ".txt";
      Some(k)
    else None
  }

  lemma KeyOfFileNameRoundTrip(artifactsPath: string, prefix: string, key: string)
    ensures KeyOfFileName(artifactsPath, prefix, FileName(artifactsPath, prefix, key)) == Some(key)
  {
    var head := artifactsPath + "/" + prefix;
    var path := FileName(artifactsPath, prefix, key);
    assert path == head + key + ".txt";
    assert path[..|head|] == head;
    assert path[|path| - 4..] == ".txt";
    assert path[|head|..|path| - 4] == key;
  }

  /** `export_locally(prepend_value)`: the files written for the dictionary, in key order.
      Each file's name gives back its key and its lines give back the key's list. */
  function ExportLocally(artifactsPath: string, groups: OrderedMap, prefix: string): (files: seq<OutFile>)
    ensures |files| == |groups|
    ensures forall i :: 0 <= i < |files| ==>
      KeyOfFileName(artifactsPath, prefix, files[i].path) == Some(groups[i].0)
    ensures forall i :: 0 <= i < |files| ==>
      (forall j :: 0 <= j < |groups[i].1| ==> '\n' !in groups[i].1[j]) ==>
      SplitLines(files[i].content) == groups[i].1
    ensures forall i :: 0 <= i < |files| ==> |files[i].content| == LinesSize(groups[i].1)
  {
    var files := seq(|groups|, i requires 0 <= i < |groups| =>
      OutFile(FileName(artifactsPath, prefix, groups[i].0), JoinLines(groups[i].1)));
    forall i | 0 <= i < |files| {
      ExportedFile(artifactsPath, prefix, groups[i].0, groups[i].1);
    }
    files
  }

  /** The file exported for one key: its name gives back the key, and its content is the
      items, each followed by a newline. */
  lemma ExportedFile(artifactsPath: string, prefix: string, key: string, items: seq<string>)
    ensures KeyOfFileName(artifactsPath, prefix, FileName(artifactsPath, prefix, key)) == Some(key)
    ensures (forall j :: 0 <= j < |items| ==> '\n' !in items[j]) ==> SplitLines(JoinLines(items)) == items
    ensures |JoinLines(items)| == LinesSize(items)
  {
    KeyOfFileNameRoundTrip(artifactsPath, prefix, key);
    if forall j :: 0 <= j < |items| ==> '\n' !in items[j] {
      SplitJoinLines(items);
    }
    JoinLinesLength(items);
  }

  /** Distinct keys give distinct file names, so no exported file overwrites another. */
  lemma ExportedPathsDistinct(artifactsPath: string, groups: OrderedMap, prefix: string)
    requires DistinctKeys(groups)
    ensures var files := ExportLocally(artifactsPath, groups, prefix);
      forall i, j :: 0 <= i < j < |files| ==> files[i].path != files[j].path
  {
  }

  /** No IP range of any contributing record contains a newline. */
  ghost predicate RangesAreLines(rs: seq<Record>)
  {
    forall j, n :: 0 <= j < |rs| && rs[j].ips.Some? && 0 <= n < |rs[j].ips.value| ==>
      '\n' !in rs[j].ips.value[n]
  }

  lemma {:induction false} IpsForAreLines(rs: seq<Record>, k: string)
    requires RangesAreLines(rs)
    ensures forall n :: 0 <= n < |IpGrouping.IpsFor(rs, k)| ==> '\n' !in IpGrouping.IpsFor(rs, k)[n]
  {
    if |rs| > 0 {
      var p := rs[..|rs| - 1];
      assert RangesAreLines(p) by {
        assert forall j :: 0 <= j < |p| ==> p[j] == rs[j];
      }
      IpsForAreLines(p, k);
    }
  }

  /** Grouping a response and exporting it: every service area with ranges gets a file
      whose lines are that area's ranges in record order, an area without ranges gets no
      file, and files the export does not name keep their content. */
  lemma ExportOfGroupedResponse(fs: FileSystem, artifactsPath: string, rs: seq<Record>, prefix: string)
    requires RangesAreLines(rs)
    ensures var out := WriteAll(fs, ExportLocally(artifactsPath, IpGrouping.Grouped(rs), prefix));
      && (forall k :: (exists j :: 0 <= j < |rs| && IpGrouping.Contributes(rs[j], k)) ==>
            FileName(artifactsPath, prefix, k) in out &&
            SplitLines(out[FileName(artifactsPath, prefix, k)]) == IpGrouping.IpsFor(rs, k))
      && (forall k :: FileName(artifactsPath, prefix, k) in out ==>
            FileName(artifactsPath, prefix, k) in fs ||
            exists j :: 0 <= j < |rs| && IpGrouping.Contributes(rs[j], k))
      && (forall path :: path in fs && OutsideExport(artifactsPath, prefix, rs, path) ==> out[path] == fs[path])
  {
    var files := ExportLocally(artifactsPath, IpGrouping.Grouped(rs), prefix);
    forall k | exists j :: 0 <= j < |rs| && IpGrouping.Contributes(rs[j], k)
      ensures FileName(artifactsPath, prefix, k) in WriteAll(fs, files)
      ensures SplitLines(WriteAll(fs, files)[FileName(artifactsPath, prefix, k)]) == IpGrouping.IpsFor(rs, k)
    {
      ExportedAreaFile(fs, artifactsPath, rs, prefix, k);
    }
    forall k | FileName(artifactsPath, prefix, k) in WriteAll(fs, files) && FileName(artifactsPath, prefix, k) !in fs
      ensures exists j :: 0 <= j < |rs| && IpGrouping.Contributes(rs[j], k)
    {
      ExportedFileHasArea(fs, artifactsPath, rs, prefix, k);
    }
    ExportKeepsOthers(fs, artifactsPath, rs, prefix);
  }

  /** The file of a service area with ranges holds those ranges. */
  lemma ExportedAreaFile(fs: FileSystem, artifactsPath: string, rs: seq<Record>, prefix: string, k: string)
    requires RangesAreLines(rs)
    requires exists j :: 0 <= j < |rs| && IpGrouping.Contributes(rs[j], k)
    ensures var out := WriteAll(fs, ExportLocally(artifactsPath, IpGrouping.Grouped(rs), prefix));
      FileName(artifactsPath, prefix, k) in out &&
      SplitLines(out[FileName(artifactsPath, prefix, k)]) == IpGrouping.IpsFor(rs, k)
  {
    var g := IpGrouping.Grouped(rs);
    var files := ExportLocally(artifactsPath, g, prefix);
    IpGrouping.GroupedCharacterised(rs);
    ExportedPathsDistinct(artifactsPath, g, prefix);
    WriteAllContents(fs, files);
    var t := IndexOf(g, k);
    KeyOfFileNameRoundTrip(artifactsPath, prefix, k);
    assert files[t].path == FileName(artifactsPath, prefix, k);
    IpsForAreLines(rs, k);
  }

  /** A file the export created belongs to a service area with ranges. */
  lemma ExportedFileHasArea(fs: FileSystem, artifactsPath: string, rs: seq<Record>, prefix: string, k: string)
    requires FileName(artifactsPath, prefix, k) in WriteAll(fs, ExportLocally(artifactsPath, IpGrouping.Grouped(rs), prefix))
    requires FileName(artifactsPath, prefix, k) !in fs
    ensures exists j :: 0 <= j < |rs| && IpGrouping.Contributes(rs[j], k)
  {
    var g := IpGrouping.Grouped(rs);
    var files := ExportLocally(artifactsPath, g, prefix);
    IpGrouping.GroupedCharacterised(rs);
    var t :| 0 <= t < |files| && files[t].path == FileName(artifactsPath, prefix, k);
    KeyOfFileNameRoundTrip(artifactsPath, prefix, k);
    assert HasKey(g, k) by {
      assert g[t].0 == k;
    }
  }

  /** `path` is not the export file of a service area with ranges in `rs`: either it is
      no export file name at all, or it names an area that no record contributes to, such
      as the file an earlier run left for an area that has since disappeared. */
  ghost predicate OutsideExport(artifactsPath: string, prefix: string, rs: seq<Record>, path: string)
  {
    var k := KeyOfFileName(artifactsPath, prefix, path);
    k.None? || forall j :: 0 <= j < |rs| ==> !IpGrouping.Contributes(rs[j], k.value)
  }

  /** A path outside the export keeps its content, stale files of vanished areas included. */
  lemma ExportKeepsOthers(fs: FileSystem, artifactsPath: string, rs: seq<Record>, prefix: string)
    ensures var out := WriteAll(fs, ExportLocally(artifactsPath, IpGrouping.Grouped(rs), prefix));
      forall path :: path in fs && OutsideExport(artifactsPath, prefix, rs, path) ==> out[path] == fs[path]
  {
    var groups := IpGrouping.Grouped(rs);
    IpGrouping.GroupedCharacterised(rs);
    var files := ExportLocally(artifactsPath, groups, prefix);
    ExportedPathsDistinct(artifactsPath, groups, prefix);
    WriteAllContents(fs, files);
    forall path | OutsideExport(artifactsPath, prefix, rs, path)
      ensures forall i :: 0 <= i < |files| ==> files[i].path != path
    {
      forall i | 0 <= i < |files|
        ensures files[i].path != path
      {
        assert KeyOfFileName(artifactsPath, prefix, files[i].path) == Some(groups[i].0);
        assert HasKey(groups, groups[i].0);
      }
    }
  }

  /** The file an earlier export wrote for a service area that no longer has ranges is
      left as it was. */
  lemma StaleAreaFileKept(fs: FileSystem, artifactsPath: string, rs: seq<Record>, prefix: string, k: string)
    requires FileName(artifactsPath, prefix, k) in fs
    requires forall j :: 0 <= j < |rs| ==> !IpGrouping.Contributes(rs[j], k)
    ensures var out := WriteAll(fs, ExportLocally(artifactsPath, IpGrouping.Grouped(rs), prefix));
      out[FileName(artifactsPath, prefix, k)] == fs[FileName(artifactsPath, prefix, k)]
  {
    KeyOfFileNameRoundTrip(artifactsPath, prefix, k);
    ExportKeepsOthers(fs, artifactsPath, rs, prefix);
  }

  /** `main` exports the Office 365 dictionary into `/tmp/artifacts` with the default
      prefix: one `<service area>.txt` per key. */
  lemma MainExportNames(groups: OrderedMap)
    ensures forall i :: 0 <= i < |groups| ==>
      ExportLocally(ArtifactsPath("/tmp"), groups, DefaultPrefix)[i].path == "/tmp/artifacts/" + groups[i].0 + ".txt"
  {
  }
}
