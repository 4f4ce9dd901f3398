/**
 The file output of the exporters, with the file system reduced to a map from path to
 content. A file opened with mode "w" is truncated, so writing replaces the whole content.
 */
module TextFiles {

  type FileSystem = map<string, string>

  /** A file to be written: its path and its full content. */
  datatype OutFile = OutFile(path: string, content: string)

  /** The content written by `for item in items: out_file.write("%s\n" % item)`. */
  function JoinLines(items: seq<string>): (text: string)
    ensures text == [] <==> |items| == 0
    ensures |items| > 0 ==> text[|text| - 1] == '\n'
    ensures |items| > 0 ==> |items[0]| < |text| && text[..|items[0]|] == items[0]
  {
    if |items| == 0 then "" else items[0] + "\n" + JoinLines(items[1..])
  }

  /** The index of the first newline in `s`, or |s| when there is none. */
  function NewlineAt(s: string): (k: nat)
    ensures k <= |s|
    ensures k < |s| ==> s[k] == '\n'
    ensures '\n' !in s[..k]
  {
    if |s| == 0 || s[0] == '\n' then 0
    else
      var k := NewlineAt(s[1..]);
      assert s[1..][..k] == s[1..k + 1];
      1 + k
  }

  /** Reads a text back as its lines; a final line without a newline still counts. */
  function SplitLines(text: string): (lines: seq<string>)
    ensures forall i :: 0 <= i < |lines| ==> '\n' !in lines[i]
    decreases |text|
  {
    if |text| == 0 then []
    else
      var k := NewlineAt(text);
      if k == |text| then [text]
      else [text[..k]] + SplitLines(text[k + 1..])
  }

  /** Reading back what the exporter wrote gives the exported items, provided no item
      contains a newline of its own. */
  lemma {:induction false} SplitJoinLines(items: seq<string>)
    requires forall i :: 0 <= i < |items| ==> '\n' !in items[i]
    ensures SplitLines(JoinLines(items)) == items
  {
    if |items| > 0 {
      var text := JoinLines(items);
      var rest := JoinLines(items[1..]);
      assert text == items[0] + ("\n" + rest);
      assert NewlineAt(text) == |items[0]| by {
        NewlineAtPrefix(items[0], "\n" + rest);
      }
      assert text[..|items[0]|] == items[0];
      assert text[|items[0]| + 1..] == rest;
      SplitJoinLines(items[1..]);
    }
  }

  lemma {:induction false} NewlineAtPrefix(a: string, b: string)
    requires '\n' !in a
    requires |b| > 0 && b[0] == '\n'
    ensures NewlineAt(a + b) == |a|
  {
    if |a| > 0 {
      assert (a + b)[1..] == a[1..] + b;
      NewlineAtPrefix(a[1..], b);
    } else {
      assert a + b == b;
    }
  }

  /** Every item contributes its own length plus one newline. */
  lemma {:induction false} JoinLinesLength(items: seq<string>)
    ensures |JoinLines(items)| == LinesSize(items)
  {
    if |items| > 0 {
      JoinLinesLength(items[1..]);
    }
  }

  function LinesSize(items: seq<string>): nat
  {
    if |items| == 0 then 0 else |items[0]| + 1 + LinesSize(items[1..])
  }

  /** Writes the files in order; a later file with the same path overwrites an earlier one. */
  function WriteAll(fs: FileSystem, files: seq<OutFile>): (r: FileSystem)
    ensures r.Keys == fs.Keys + set i | 0 <= i < |files| :: files[i].path
  {
    if |files| == 0 then fs
    else
      var last := files[|files| - 1];
      var r := WriteAll(fs, files[..|files| - 1]);
      assert forall i :: 0 <= i < |files| - 1 ==> files[..|files| - 1][i] == files[i];
      r[last.path := last.content]
  }

  /** Writing is an overlay: the old file system, overridden by what was written. */
  lemma {:induction false} WriteAllOverlay(fs: FileSystem, files: seq<OutFile>)
    ensures WriteAll(fs, files) == fs + WriteAll(map[], files)
  {
    if |files| > 0 {
      var last := files[|files| - 1];
      var w := WriteAll(map[], files[..|files| - 1]);
      assert WriteAll(fs, files[..|files| - 1]) == fs + w by {
        WriteAllOverlay(fs, files[..|files| - 1]);
      }
      OverlayUpdate(fs, w, last.path, last.content);
    }
  }

  lemma OverlayUpdate(fs: FileSystem, w: FileSystem, path: string, content: string)
    ensures (fs + w)[path := content] == fs + w[path := content]
  {
  }

  /** Exporting twice leaves the same files as exporting once: each write truncates. */
  lemma WriteAllIdempotent(fs: FileSystem, files: seq<OutFile>)
    ensures WriteAll(WriteAll(fs, files), files) == WriteAll(fs, files)
  {
    var w := WriteAll(map[], files);
    WriteAllOverlay(fs, files);
    WriteAllOverlay(fs + w, files);
    assert fs + w + w == fs + w;
  }

  /** With pairwise distinct paths, each file holds exactly what was written to it and
      every other file is untouched. */
  lemma {:induction false} WriteAllContents(fs: FileSystem, files: seq<OutFile>)
    requires forall i, j :: 0 <= i < j < |files| ==> files[i].path != files[j].path
    ensures forall i :: 0 <= i < |files| ==> WriteAll(fs, files)[files[i].path] == files[i].content
    ensures forall p :: p in fs && (forall i :: 0 <= i < |files| ==> files[i].path != p) ==>
      WriteAll(fs, files)[p] == fs[p]
  {
    if |files| > 0 {
      var init := files[..|files| - 1];
      WriteAllContents(fs, init);
      assert forall i :: 0 <= i < |init| ==> init[i] == files[i];
    }
  }
}
